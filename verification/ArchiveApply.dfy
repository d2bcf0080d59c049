/** Restoring a whole archive: preflight, empty target, apply (internal/backup/restore.go:72-144,
    457-490, kvsrcmap.go:561-692). */
module ArchiveApply {
  import opened Common
  import opened KvNamespace
  import opened Archive
  import opened ArchiveCheck
  import opened ArchiveShape
  import opened ArchiveReconcile
  import opened ArchiveRestore

  // ---------------------------------------------------------------- the key-value section

  /** The writes for one archived key. Nothing but this key changes, and only towards its content. */
  method PutLine(db: Target, l: KvLine) returns (ok: bool)
    modifies db`ops, db`kv
    ensures OnlyToward(old(db.kv), db.kv, l.key, l.content)
    ensures db.Steady() ==> ok && Landed(db, old(db.kv), db.kv, l)
  {
    match l.content
    case Str(v) =>
      ok := db.KvWrite(l.key, PutString(db.kv, l.key, v));
    case Members(ms) =>
      ok := PutMembers(db, l.key, ms);
    case Scores(z) =>
      ok := PutScores(db, l.key, z);
  }

  /** After the writes of a line: all of its content is there, or, where writes are lost, nothing
      has changed. */
  ghost predicate Landed(db: Target, a: Kv, b: Kv, l: KvLine) {
    if db.Lost(l.key) then At(b, l.key) == At(a, l.key) else Complete(At(b, l.key), l.content)
  }

  ghost predicate AllLanded(db: Target, a: Kv, b: Kv, lines: seq<KvLine>) {
    forall i :: 0 <= i < |lines| ==> Landed(db, a, b, lines[i])
  }

  /** The losses the completeness check will not see. */
  ghost predicate Unseen(db: Target, kv: Kv, lines: seq<KvLine>) {
    forall i :: 0 <= i < |lines| ==> db.Lost(lines[i].key) ==> Passes(At(kv, lines[i].key), lines[i].content)
  }

  /** The store went from `a` to `b` by writes of `c` under one key. */
  ghost predicate OnlyToward(a: Kv, b: Kv, key: string, c: Content) {
    Toward(At(a, key), At(b, key), c) && SameElsewhere(a, b, {key})
  }

  lemma MemberAdded(a: Kv, b: Kv, key: string, ms: set<string>, m: string)
    requires OnlyToward(a, b, key, Members(ms)) && m in ms
    ensures OnlyToward(a, AddMember(b, key, m), key, Members(ms))
    ensures At(AddMember(b, key, m), key).members == At(b, key).members + {m}
  {
    var c := AddMember(b, key, m);
    forall k | k != key
      ensures At(c, k) == At(b, k)
    {
    }
  }

  lemma ScoreToward(o: Slot, n: Slot, z: map<string, real>, m: string)
    requires Toward(o, n, Scores(z)) && m in z
    ensures Toward(o, n.(scores := n.scores[m := z[m]]), Scores(z))
  {
  }

  lemma ScoreAdded(a: Kv, b: Kv, key: string, z: map<string, real>, m: string)
    requires OnlyToward(a, b, key, Scores(z)) && m in z
    ensures OnlyToward(a, AddScore(b, key, m, z[m]), key, Scores(z))
  {
    var c := AddScore(b, key, m, z[m]);
    assert At(c, key) == At(b, key).(scores := At(b, key).scores[m := z[m]]);
    ScoreToward(At(a, key), At(b, key), z, m);
    forall k | k != key
      ensures At(c, k) == At(a, k)
    {
      assert At(c, k) == At(b, k);
    }
  }

  method PutMembers(db: Target, key: string, ms: set<string>) returns (ok: bool)
    modifies db`ops, db`kv
    ensures OnlyToward(old(db.kv), db.kv, key, Members(ms))
    ensures db.Steady() ==> ok && Landed(db, old(db.kv), db.kv, KvLine(key, Members(ms)))
  {
    ok := true;
    var rest := ms;
    while rest != {}
      invariant rest <= ms && ok && OnlyToward(old(db.kv), db.kv, key, Members(ms))
      invariant db.Steady() ==> if db.Lost(key) then db.kv == old(db.kv) else ms - rest <= At(db.kv, key).members
      decreases |rest|
    {
      var m :| m in rest;
      MemberAdded(old(db.kv), db.kv, key, ms, m);
      ok := db.KvWrite(key, AddMember(db.kv, key, m));
      if !ok { return; }
      rest := rest - {m};
    }
  }

  ghost predicate ScoresIn(n: Slot, z: map<string, real>, part: set<string>) {
    forall m :: m in part ==> m in z && m in n.scores && n.scores[m] == z[m]
  }

  lemma ScorePut(b: Kv, key: string, z: map<string, real>, m: string, part: set<string>)
    requires m in z && ScoresIn(At(b, key), z, part)
    ensures ScoresIn(At(AddScore(b, key, m, z[m]), key), z, part + {m})
  {
    assert At(AddScore(b, key, m, z[m]), key).scores == At(b, key).scores[m := z[m]];
  }

  /** The scores of `part` are written, or lost. */
  ghost predicate ScoresWritten(db: Target, a: Kv, b: Kv, key: string, z: map<string, real>, part: set<string>) {
    && OnlyToward(a, b, key, Scores(z))
    && (db.Steady() ==> if db.Lost(key) then b == a else ScoresIn(At(b, key), z, part))
  }

  lemma ScoreWritten(db: Target, a: Kv, b: Kv, c: Kv, key: string, z: map<string, real>, m: string, part: set<string>)
    requires ScoresWritten(db, a, b, key, z, part) && m in z && (c == b || c == AddScore(b, key, m, z[m]))
    requires db.Steady() ==> c == if db.Lost(key) then b else AddScore(b, key, m, z[m])
    ensures ScoresWritten(db, a, c, key, z, part + {m})
  {
    ScoreAdded(a, b, key, z, m);
    if db.Steady() && !db.Lost(key) { ScorePut(b, key, z, m, part); }
  }

  lemma NoScoresYet(db: Target, a: Kv, key: string, z: map<string, real>)
    ensures ScoresWritten(db, a, a, key, z, {})
  {
  }

  lemma ScoresDone(db: Target, a: Kv, b: Kv, key: string, z: map<string, real>)
    requires ScoresWritten(db, a, b, key, z, z.Keys)
    ensures db.Steady() ==> Landed(db, a, b, KvLine(key, Scores(z)))
  {
  }

  method PutScores(db: Target, key: string, z: map<string, real>) returns (ok: bool)
    modifies db`ops, db`kv
    ensures OnlyToward(old(db.kv), db.kv, key, Scores(z))
    ensures db.Steady() ==> ok && Landed(db, old(db.kv), db.kv, KvLine(key, Scores(z)))
  {
    hide Landed, ScoresIn, OnlyToward;
    ok := true;
    var rest := z.Keys;
    NoScoresYet(db, db.kv, key, z);
    assert z.Keys - rest == {};
    while rest != {}
      invariant rest <= z.Keys && ok && ScoresWritten(db, old(db.kv), db.kv, key, z, z.Keys - rest)
      decreases |rest|
    {
      var m :| m in rest;
      ghost var before, part := db.kv, z.Keys - rest;
      ok := db.KvWrite(key, AddScore(db.kv, key, m, z[m]));
      ScoreWritten(db, old(db.kv), before, db.kv, key, z, m, part);
      if !ok { return; }
      rest := rest - {m};
      assert part + {m} == z.Keys - rest;
    }
    assert z.Keys - rest == z.Keys;
    ScoresDone(db, old(db.kv), db.kv, key, z);
  }

  /** Where a pass over the section's lines has got to: the keys so far moved towards their
      content, and no other key moved. */
  ghost predicate KvMoved(a: Kv, b: Kv, lines: seq<KvLine>) {
    && SameElsewhere(a, b, SetOf(KeysOf(lines)))
    && forall i :: 0 <= i < |lines| ==> Toward(At(a, lines[i].key), At(b, lines[i].key), lines[i].content)
  }

  ghost predicate KvComplete(b: Kv, lines: seq<KvLine>) {
    forall i :: 0 <= i < |lines| ==> Complete(At(b, lines[i].key), lines[i].content)
  }

  /** The completeness check passes. */
  ghost predicate KvPasses(b: Kv, lines: seq<KvLine>) {
    forall i :: 0 <= i < |lines| ==> Passes(At(b, lines[i].key), lines[i].content)
  }

  lemma MovedStep(a: Kv, b: Kv, c: Kv, lines: seq<KvLine>, l: KvLine)
    requires KvMoved(a, b, lines) && l.key !in SetOf(KeysOf(lines))
    requires OnlyToward(b, c, l.key, l.content)
    ensures KvMoved(a, c, lines + [l])
    ensures At(b, l.key) == At(a, l.key) && forall i :: 0 <= i < |lines| ==> At(c, lines[i].key) == At(b, lines[i].key)
  {
    LineMapAppend(lines, l);
    assert SetOf(KeysOf(lines + [l])) == SetOf(KeysOf(lines)) + {l.key};
    forall i | 0 <= i < |lines|
      ensures At(c, lines[i].key) == At(b, lines[i].key)
    {
      assert lines[i].key == KeysOf(lines)[i] && KeysOf(lines)[i] in SetOf(KeysOf(lines));
    }
    assert At(a, l.key) == At(b, l.key);
  }

  lemma MovedMore(a: Kv, b: Kv, lines: seq<KvLine>, all: seq<KvLine>)
    requires lines <= all && SameElsewhere(a, b, SetOf(KeysOf(lines)))
    ensures SameElsewhere(a, b, SetOf(KeysOf(all)))
  {
    assert KeysOf(lines) <= KeysOf(all);
    assert SetOf(KeysOf(lines)) <= SetOf(KeysOf(all));
  }

  /** Where the writing has got to. */
  ghost predicate Written(db: Target, a: Kv, b: Kv, lines: seq<KvLine>) {
    KvMoved(a, b, lines) && (db.Steady() ==> AllLanded(db, a, b, lines))
  }

  lemma WrittenStep(db: Target, a: Kv, b: Kv, c: Kv, lines: seq<KvLine>, l: KvLine)
    requires Written(db, a, b, lines) && l.key !in SetOf(KeysOf(lines))
    requires OnlyToward(b, c, l.key, l.content) && (db.Steady() ==> Landed(db, b, c, l))
    ensures Written(db, a, c, lines + [l])
  {
    MovedStep(a, b, c, lines, l);
    if db.Steady() {
      forall i | 0 <= i < |lines|
        ensures Landed(db, a, c, lines[i])
      {
        assert Landed(db, a, b, lines[i]);
      }
    }
  }

  lemma NextKeyIsNew(lines: seq<Line<KvLine>>, i: nat)
    requires KvLinesOk(lines) && i < |lines| && lines[i].Carries?
    ensures lines[i].value.key !in SetOf(KeysOf(Values(lines[..i])))
  {
    KvPrefix(lines, i);
    KvPrefix(lines, i + 1);
    KvStep(lines, i);
  }

  lemma NextLine(lines: seq<Line<KvLine>>, i: nat)
    requires i < |lines|
    ensures Values(lines[..i + 1]) ==
      if lines[i].Carries? then Values(lines[..i]) + [lines[i].value] else Values(lines[..i])
    ensures Values(lines[..i + 1]) <= Values(lines)
  {
    LastLine(lines, i);
    ValuesPrefix(lines, i + 1);
  }

  /** applyKVSection, first pass: write every line. */
  method WriteKvLines(db: Target, lines: seq<Line<KvLine>>) returns (ok: bool)
    requires KvLinesOk(lines)
    modifies db`ops, db`kv
    ensures SameElsewhere(old(db.kv), db.kv, SetOf(KeysOf(Values(lines))))
    ensures ok ==> KvMoved(old(db.kv), db.kv, Values(lines))
    ensures db.Steady() ==> ok && AllLanded(db, old(db.kv), db.kv, Values(lines))
  {
    for i := 0 to |lines|
      invariant Written(db, old(db.kv), db.kv, Values(lines[..i]))
    {
      NextLine(lines, i);
      if lines[i].Carries? {
        NextKeyIsNew(lines, i);
        ghost var before := db.kv;
        ok := PutLine(db, lines[i].value);
        WrittenStep(db, old(db.kv), before, db.kv, Values(lines[..i]), lines[i].value);
        if !ok {
          MovedMore(old(db.kv), db.kv, Values(lines[..i + 1]), Values(lines));
          return;
        }
      }
    }
    assert lines[..|lines|] == lines;
    ok := true;
  }

  /** Second pass: read every key back. A write path that lost something is found out here. */
  method VerifyKvLines(db: Target, lines: seq<Line<KvLine>>) returns (ok: bool)
    modifies db`ops
    ensures ok ==> KvPasses(db.kv, Values(lines)) && forall n :: old(db.ops) <= n < db.ops ==> !db.queryFails(n)
    ensures db.Steady() && KvPasses(db.kv, Values(lines)) ==> ok
  {
    for i := 0 to |lines|
      invariant KvPasses(db.kv, Values(lines[..i]))
      invariant old(db.ops) <= db.ops && forall n :: old(db.ops) <= n < db.ops ==> !db.queryFails(n)
    {
      LastLine(lines, i);
      ValuesPrefix(lines, i + 1);
      if lines[i].Carries? {
        var l := lines[i].value;
        assert Values(lines)[|Values(lines[..i])|] == l;
        var answered := db.Query();
        if !answered { return false; }
        if !Passes(At(db.kv, l.key), l.content) { return false; }
      }
    }
    assert lines[..|lines|] == lines;
    ok := true;
  }

  lemma UnseenPasses(db: Target, a: Kv, b: Kv, lines: seq<KvLine>)
    requires AllLanded(db, a, b, lines) && Unseen(db, a, lines)
    ensures KvPasses(b, lines)
  {
    forall i | 0 <= i < |lines|
      ensures Passes(At(b, lines[i].key), lines[i].content)
    {
      assert Landed(db, a, b, lines[i]);
    }
  }

  /** Every line written, then every key read back. */
  method ApplyKvSection(db: Target, lines: seq<Line<KvLine>>) returns (ok: bool)
    requires KvLinesOk(lines)
    modifies db`ops, db`kv
    ensures SameElsewhere(old(db.kv), db.kv, SetOf(KeysOf(Values(lines))))
    ensures ok ==> KvMoved(old(db.kv), db.kv, Values(lines)) && KvPasses(db.kv, Values(lines))
    ensures db.Steady() ==> AllLanded(db, old(db.kv), db.kv, Values(lines))
    ensures db.Steady() && Unseen(db, old(db.kv), Values(lines)) ==> ok
  {
    ok := WriteKvLines(db, lines);
    if db.Steady() && Unseen(db, old(db.kv), Values(lines)) { UnseenPasses(db, old(db.kv), db.kv, Values(lines)); }
    if ok { ok := VerifyKvLines(db, lines); }
  }

  // ---------------------------------------------------------------- the whole archive

  /** The rows an archive holds for a table, and its key-value lines. */
  function RowsIn(es: seq<Entry>, t: string): seq<Row> {
    if es == [] then []
    else
      var last := es[|es| - 1];
      RowsIn(es[..|es| - 1], t) + (if IsTable(last, t) then Values(last.lines) else [])
  }

  function KvLinesIn(es: seq<Entry>): seq<KvLine> {
    if es == [] then []
    else
      var last := es[|es| - 1];
      KvLinesIn(es[..|es| - 1]) + (if last.KvEntry? then Values(last.kvLines) else [])
  }

  /** All rows of table t in `es`, and nothing else, were appended. */
  ghost predicate Grown(a: Tables, b: Tables, t: string, es: seq<Entry>, jsonb: set<string>) {
    RowsOf(b, t) == RowsOf(a, t) + StoredRows(RowsIn(es, t), jsonb)
  }

  /** The first rows of table t in `es` were appended: whole batches, or all of them. */
  ghost predicate GrownPartly(a: Tables, b: Tables, t: string, es: seq<Entry>, jsonb: set<string>) {
    var n := |RowsOf(b, t)| - |RowsOf(a, t)|;
    && 0 <= n <= |RowsIn(es, t)| && (n % BATCH == 0 || n == |RowsIn(es, t)|)
    && RowsOf(b, t) == RowsOf(a, t) + StoredRows(RowsIn(es, t)[..n], jsonb)
  }

  /** After a table's one entry nothing is added to its rows. */
  lemma {:induction false} NoMoreRows(es: seq<Entry>, k: nat, n: nat, t: string)
    requires OneEach(es) && k < n <= |es| && IsTable(es[k], t)
    ensures RowsIn(es[..n], t) == RowsIn(es[..k + 1], t)
  {
    if n > k + 1 {
      NoMoreRows(es, k, n - 1, t);
      NextRows(es, n - 1, t);
      assert !Clash(es[k], es[n - 1]);
    }
  }

  /** With one entry a table, a table's rows are all in the entries before, or none are. */
  lemma AllOrNone(es: seq<Entry>, i: nat, t: string)
    requires OneEach(es) && i <= |es|
    ensures RowsIn(es[..i], t) == RowsIn(es, t) || RowsIn(es[..i], t) == []
  {
    if k :| 0 <= k < i && IsTable(es[k], t) {
      NoMoreRows(es, k, i, t);
      NoMoreRows(es, k, |es|, t);
      AllRows(es, t);
    } else {
      NoneIn(es[..i], t);
    }
  }

  lemma {:induction false} NoneIn(es: seq<Entry>, t: string)
    requires forall j :: 0 <= j < |es| ==> !IsTable(es[j], t)
    ensures RowsIn(es, t) == []
  {
    if es != [] { NoneIn(es[..|es| - 1], t); }
  }

  lemma {:induction false} NoKvIn(es: seq<Entry>)
    requires forall j :: 0 <= j < |es| ==> !es[j].KvEntry?
    ensures KvLinesIn(es) == []
  {
    if es != [] { NoKvIn(es[..|es| - 1]); }
  }

  lemma {:induction false} PartsGrow(es: seq<Entry>, i: nat)
    requires i <= |es|
    ensures KvLinesIn(es[..i]) <= KvLinesIn(es)
    decreases |es|
  {
    if i == |es| {
      assert es[..i] == es;
    } else {
      assert es[..|es| - 1][..i] == es[..i];
      PartsGrow(es[..|es| - 1], i);
    }
  }

  ghost predicate AllGrown(a: Tables, b: Tables, es: seq<Entry>, jsonb: string -> set<string>) {
    forall t :: Grown(a, b, t, es, jsonb(t))
  }

  ghost predicate AllGrownPartly(a: Tables, b: Tables, es: seq<Entry>, jsonb: string -> set<string>) {
    forall t :: GrownPartly(a, b, t, es, jsonb(t))
  }

  /** A table whose rows are in place for a part of the entries that has all of them or none. */
  lemma PartlyWhole(a: Tables, b: Tables, t: string, part: seq<Entry>, es: seq<Entry>, jsonb: set<string>)
    requires Grown(a, b, t, part, jsonb) && (RowsIn(part, t) == [] || RowsIn(part, t) == RowsIn(es, t))
    ensures GrownPartly(a, b, t, es, jsonb)
  {
    hide RowsIn, StoredRows;
    var rows, all := RowsIn(part, t), RowsIn(es, t);
    assert RowsOf(b, t) == RowsOf(a, t) + StoredRows(rows, jsonb);
    if rows == [] {
      assert all[..0] == rows;
    } else {
      assert all[..|all|] == rows;
    }
  }

  /** ... and one in the middle of being written. */
  lemma PartlyWritten(a: Tables, b: Tables, c: Tables, t: string, rows: seq<Row>, done: nat, es: seq<Entry>,
                      jsonb: set<string>)
    requires RowsOf(b, t) == RowsOf(a, t) && rows == RowsIn(es, t)
    requires done <= |rows| && (done % BATCH == 0 || done == |rows|) && Wrote(b, c, t, rows[..done], jsonb)
    ensures GrownPartly(a, c, t, es, jsonb)
    ensures done == |rows| ==> Grown(a, c, t, es, jsonb)
  {
    assert RowsOf(c, t) == RowsOf(b, t) + StoredRows(rows[..done], jsonb);
    if done == |rows| { assert rows[..done] == rows; }
  }

  /** One table entry applied, wholly or not. */
  lemma TableApplied(a: Tables, b: Tables, c: Tables, es: seq<Entry>, i: nat, jsonb: string -> set<string>, done: nat)
    requires OneEach(es) && i < |es| && es[i].TableEntry? && AllGrown(a, b, es[..i], jsonb)
    requires done <= |Values(es[i].lines)| && (done % BATCH == 0 || done == |Values(es[i].lines)|)
    requires Wrote(b, c, es[i].table, Values(es[i].lines)[..done], jsonb(es[i].table))
    ensures AllGrownPartly(a, c, es, jsonb)
    ensures done == |Values(es[i].lines)| ==> AllGrown(a, c, es[..i + 1], jsonb)
  {
    var t0, rows := es[i].table, Values(es[i].lines);
    FirstForTable(es, i);
    assert Grown(a, b, t0, es[..i], jsonb(t0));
    PartlyWritten(a, b, c, t0, rows, done, es, jsonb(t0));
    forall t
      ensures GrownPartly(a, c, t, es, jsonb(t))
      ensures done == |rows| ==> Grown(a, c, t, es[..i + 1], jsonb(t))
    {
      if t != t0 { OtherTable(a, b, c, es, i, t, jsonb(t)); }
    }
  }

  lemma OtherTable(a: Tables, b: Tables, c: Tables, es: seq<Entry>, i: nat, t: string, jsonb: set<string>)
    requires OneEach(es) && i < |es| && !IsTable(es[i], t) && Grown(a, b, t, es[..i], jsonb)
    requires RowsOf(c, t) == RowsOf(b, t)
    ensures GrownPartly(a, c, t, es, jsonb) && Grown(a, c, t, es[..i + 1], jsonb)
  {
    AllOrNone(es, i, t);
    PartlyWhole(a, c, t, es[..i], es, jsonb);
    NextRows(es, i, t);
  }

  lemma NextRows(es: seq<Entry>, i: nat, t: string)
    requires i < |es|
    ensures !IsTable(es[i], t) ==> RowsIn(es[..i + 1], t) == RowsIn(es[..i], t)
    ensures IsTable(es[i], t) && RowsIn(es[..i], t) == [] ==> RowsIn(es[..i + 1], t) == Values(es[i].lines)
  {
    assert es[..i + 1][..i] == es[..i];
  }

  lemma NextKv(es: seq<Entry>, i: nat)
    requires i < |es|
    ensures !es[i].KvEntry? ==> KvLinesIn(es[..i + 1]) == KvLinesIn(es[..i])
    ensures es[i].KvEntry? && KvLinesIn(es[..i]) == [] ==> KvLinesIn(es[..i + 1]) == Values(es[i].kvLines)
  {
    assert es[..i + 1][..i] == es[..i];
  }

  lemma AllRows(es: seq<Entry>, t: string)
    ensures RowsIn(es[..|es|], t) == RowsIn(es, t)
  {
    assert es[..|es|] == es;
  }

  lemma NoneBefore(es: seq<Entry>, i: nat)
    requires OneEach(es) && i < |es|
    ensures es[i].TableEntry? ==> RowsIn(es[..i], es[i].table) == []
    ensures es[i].KvEntry? ==> KvLinesIn(es[..i]) == []
  {
    forall j | 0 <= j < i
      ensures !Clash(es[..i][j], es[i])
    {
      assert es[..i][j] == es[j];
      assert !Clash(es[j], es[i]);
    }
    if es[i].TableEntry? {
      assert forall j :: 0 <= j < i ==> !IsTable(es[..i][j], es[i].table);
      NoneIn(es[..i], es[i].table);
    }
    if es[i].KvEntry? { NoKvIn(es[..i]); }
  }

  lemma FirstForTable(es: seq<Entry>, i: nat)
    requires OneEach(es) && i < |es| && es[i].TableEntry?
    ensures RowsIn(es[..i], es[i].table) == []
    ensures RowsIn(es[..i + 1], es[i].table) == Values(es[i].lines) == RowsIn(es, es[i].table)
  {
    NoneBefore(es, i);
    NextRows(es, i, es[i].table);
    NoMoreRows(es, i, |es|, es[i].table);
    AllRows(es, es[i].table);
  }

  /** Before the section, no key has moved. */
  lemma MovedSinceNothing(a: Kv, b: Kv, c: Kv, lines: seq<KvLine>)
    requires KvMoved(a, b, []) && SameElsewhere(b, c, SetOf(KeysOf(lines)))
    ensures SameElsewhere(a, c, SetOf(KeysOf(lines)))
    ensures KvMoved(b, c, lines) ==> KvMoved(a, c, lines)
  {
    forall k
      ensures At(a, k) == At(b, k)
    {
      assert k !in SetOf(KeysOf([]));
    }
  }

  lemma KvEntryApplied(a: Kv, b: Kv, c: Kv, es: seq<Entry>, i: nat)
    requires OneEach(es) && i < |es| && es[i].KvEntry? && KvMoved(a, b, KvLinesIn(es[..i]))
    requires SameElsewhere(b, c, SetOf(KeysOf(Values(es[i].kvLines))))
    ensures KvLinesIn(es[..i + 1]) == Values(es[i].kvLines) && SameElsewhere(a, c, SetOf(KeysOf(KvLinesIn(es))))
    ensures KvMoved(b, c, Values(es[i].kvLines)) ==> KvMoved(a, c, KvLinesIn(es[..i + 1]))
  {
    FirstSection(es, i);
    MovedSinceNothing(a, b, c, Values(es[i].kvLines));
    MovedMore(a, c, Values(es[i].kvLines), KvLinesIn(es));
  }

  lemma FirstSection(es: seq<Entry>, i: nat)
    requires OneEach(es) && i < |es| && es[i].KvEntry?
    ensures KvLinesIn(es[..i]) == [] && KvLinesIn(es[..i + 1]) == Values(es[i].kvLines) <= KvLinesIn(es)
  {
    NoneBefore(es, i);
    NextKv(es, i);
    PartsGrow(es, i + 1);
  }

  lemma Untouched(a: Tables, b: Tables, es: seq<Entry>, i: nat, jsonb: string -> set<string>)
    requires OneEach(es) && i <= |es| && AllGrown(a, b, es[..i], jsonb)
    ensures AllGrownPartly(a, b, es, jsonb)
  {
    forall t
      ensures GrownPartly(a, b, t, es, jsonb(t))
    {
      assert Grown(a, b, t, es[..i], jsonb(t));
      AllOrNone(es, i, t);
      PartlyWhole(a, b, t, es[..i], es, jsonb(t));
    }
  }

  lemma NextGrown(a: Tables, b: Tables, es: seq<Entry>, i: nat, jsonb: string -> set<string>)
    requires i < |es| && !es[i].TableEntry? && AllGrown(a, b, es[..i], jsonb)
    ensures AllGrown(a, b, es[..i + 1], jsonb)
  {
    forall t
      ensures Grown(a, b, t, es[..i + 1], jsonb(t))
    {
      assert Grown(a, b, t, es[..i], jsonb(t));
      NextRows(es, i, t);
    }
  }

  /** Tables and keys a restore has written. */
  datatype Stock = Stock(tables: Tables, kv: Kv)

  /** Exactly these entries were applied. */
  ghost predicate Applied(a: Stock, b: Stock, part: seq<Entry>, jsonb: string -> set<string>) {
    AllGrown(a.tables, b.tables, part, jsonb) && KvMoved(a.kv, b.kv, KvLinesIn(part)) && KvPasses(b.kv, KvLinesIn(part))
  }

  /** Nothing but content of these entries was applied: batches from the front of each table, and
      writes to archived keys. */
  ghost predicate AppliedPartly(a: Stock, b: Stock, es: seq<Entry>, jsonb: string -> set<string>) {
    AllGrownPartly(a.tables, b.tables, es, jsonb) && SameElsewhere(a.kv, b.kv, SetOf(KeysOf(KvLinesIn(es))))
  }

  lemma AppliedIsPartly(a: Stock, b: Stock, es: seq<Entry>, i: nat, jsonb: string -> set<string>)
    requires OneEach(es) && i <= |es| && Applied(a, b, es[..i], jsonb)
    ensures AppliedPartly(a, b, es, jsonb)
  {
    Untouched(a.tables, b.tables, es, i, jsonb);
    PartsGrow(es, i);
    MovedMore(a.kv, b.kv, KvLinesIn(es[..i]), KvLinesIn(es));
  }

  lemma SkippedEntry(a: Stock, b: Stock, es: seq<Entry>, i: nat, jsonb: string -> set<string>)
    requires i < |es| && !es[i].TableEntry? && !es[i].KvEntry? && Applied(a, b, es[..i], jsonb)
    ensures Applied(a, b, es[..i + 1], jsonb)
  {
    NextGrown(a.tables, b.tables, es, i, jsonb);
    NextKv(es, i);
  }

  lemma TableEntryStep(a: Stock, b: Stock, c: Stock, es: seq<Entry>, i: nat, jsonb: string -> set<string>, done: nat)
    requires OneEach(es) && i < |es| && es[i].TableEntry? && Applied(a, b, es[..i], jsonb) && c.kv == b.kv
    requires done <= |Values(es[i].lines)| && (done % BATCH == 0 || done == |Values(es[i].lines)|)
    requires Wrote(b.tables, c.tables, es[i].table, Values(es[i].lines)[..done], jsonb(es[i].table))
    ensures AppliedPartly(a, c, es, jsonb)
    ensures done == |Values(es[i].lines)| ==> Applied(a, c, es[..i + 1], jsonb)
  {
    TableApplied(a.tables, b.tables, c.tables, es, i, jsonb, done);
    NextKv(es, i);
    PartsGrow(es, i);
    MovedMore(a.kv, b.kv, KvLinesIn(es[..i]), KvLinesIn(es));
  }

  lemma KvEntryStep(a: Stock, b: Stock, c: Stock, es: seq<Entry>, i: nat, jsonb: string -> set<string>)
    requires OneEach(es) && i < |es| && es[i].KvEntry? && Applied(a, b, es[..i], jsonb) && c.tables == b.tables
    requires SameElsewhere(b.kv, c.kv, SetOf(KeysOf(Values(es[i].kvLines))))
    ensures AppliedPartly(a, c, es, jsonb)
    ensures KvMoved(b.kv, c.kv, Values(es[i].kvLines)) && KvPasses(c.kv, Values(es[i].kvLines)) ==>
      Applied(a, c, es[..i + 1], jsonb)
  {
    Untouched(a.tables, b.tables, es, i, jsonb);
    NextGrown(a.tables, b.tables, es, i, jsonb);
    KvEntryApplied(a.kv, b.kv, c.kv, es, i);
  }

  /** Nothing fails on `db`, and nothing is lost that the completeness check would see. */
  ghost predicate Quiet(db: Target, kv: Kv, es: seq<Entry>) { db.Steady() && Unseen(db, kv, KvLinesIn(es)) }

  lemma KvEntryLands(db: Target, a: Kv, b: Kv, c: Kv, es: seq<Entry>, i: nat)
    requires OneEach(es) && i < |es| && es[i].KvEntry? && KvMoved(a, b, KvLinesIn(es[..i]))
    requires Unseen(db, a, KvLinesIn(es))
    ensures Unseen(db, b, Values(es[i].kvLines))
    ensures AllLanded(db, b, c, Values(es[i].kvLines)) ==> AllLanded(db, a, c, KvLinesIn(es[..i + 1]))
  {
    FirstSection(es, i);
    var lines := Values(es[i].kvLines);
    forall j | 0 <= j < |lines|
      ensures At(a, lines[j].key) == At(b, lines[j].key) && lines[j] == KvLinesIn(es)[j]
    {
      assert lines[j].key !in SetOf(KeysOf([]));
    }
    if AllLanded(db, b, c, lines) {
      forall j | 0 <= j < |lines|
        ensures Landed(db, a, c, lines[j])
      {
        assert Landed(db, b, c, lines[j]);
      }
    }
  }

  /** One entry of the apply pass. */
  method ApplyEntry(db: Target, es: seq<Entry>, i: nat, ghost tables: seq<string>, ghost a: Stock) returns (ok: bool)
    requires EntriesOk(tables, es) && i < |es| && Applied(a, Stock(db.tables, db.kv), es[..i], db.jsonb)
    requires Quiet(db, a.kv, es) ==> AllLanded(db, a.kv, db.kv, KvLinesIn(es[..i]))
    modifies db`ops, db`tables, db`kv
    ensures AppliedPartly(a, Stock(db.tables, db.kv), es, db.jsonb)
    ensures ok ==> Applied(a, Stock(db.tables, db.kv), es[..i + 1], db.jsonb)
    ensures Quiet(db, a.kv, es) ==> ok && AllLanded(db, a.kv, db.kv, KvLinesIn(es[..i + 1]))
  {
    ghost var b := Stock(db.tables, db.kv);
    assert EntryFits(tables, es[i]);
    NextKv(es, i);
    match es[i]
    case KvEntry(lines) =>
      ok := ApplyKvSection(db, lines);
      KvEntryStep(a, b, Stock(db.tables, db.kv), es, i, db.jsonb);
      if Quiet(db, a.kv, es) { KvEntryLands(db, a.kv, b.kv, db.kv, es, i); }
    case TableEntry(t, lines) =>
      ghost var done;
      ok, done := db.RestoreTable(t, lines);
      TableEntryStep(a, b, Stock(db.tables, db.kv), es, i, db.jsonb, done);
    case _ =>
      ok := true;
      SkippedEntry(a, b, es, i, db.jsonb);
      AppliedIsPartly(a, b, es, i, db.jsonb);
  }

  /** applyArchive: the entries in order, stopping at the first failure. */
  method ApplyArchive(db: Target, es: seq<Entry>, ghost tables: seq<string>) returns (ok: bool)
    requires EntriesOk(tables, es)
    modifies db`ops, db`tables, db`kv
    ensures AppliedPartly(old(Stock(db.tables, db.kv)), Stock(db.tables, db.kv), es, db.jsonb)
    ensures ok ==> Applied(old(Stock(db.tables, db.kv)), Stock(db.tables, db.kv), es, db.jsonb)
    ensures Quiet(db, old(db.kv), es) ==> ok && AllLanded(db, old(db.kv), db.kv, KvLinesIn(es))
  {
    ok := true;
    for i := 0 to |es|
      invariant ok && Applied(old(Stock(db.tables, db.kv)), Stock(db.tables, db.kv), es[..i], db.jsonb)
      invariant Quiet(db, old(db.kv), es) ==> AllLanded(db, old(db.kv), db.kv, KvLinesIn(es[..i]))
    {
      ok := ApplyEntry(db, es, i, tables, old(Stock(db.tables, db.kv)));
      if !ok { return; }
    }
    assert es[..|es|] == es;
    AppliedIsPartly(old(Stock(db.tables, db.kv)), Stock(db.tables, db.kv), es, |es|, db.jsonb);
  }

  datatype Outcome = Rejected(why: Why) | NotEmpty | Unanswered | Failed | Restored

  ghost predicate EmptyTarget(tables: seq<string>, db: Target, kvToo: bool)
    reads db
  {
    (forall t :: t in tables ==> RowsOf(db.tables, t) == []) && (kvToo ==> Listed(db.kv) == {})
  }

  /** requireEmptyRestoreTarget: a row in any restorable table, or a blob key when the archive
      carries the key-value section, refuses the restore. */
  method RequireEmpty(tables: seq<string>, db: Target, kvToo: bool) returns (r: Result<bool, ()>)
    modifies db`ops
    ensures r.Ok? ==> (r.value <==> EmptyTarget(tables, db, kvToo))
    ensures r.Ok? <==> forall n :: old(db.ops) <= n < db.ops ==> !db.queryFails(n)
    ensures db.Steady() ==> r.Ok?
  {
    for i := 0 to |tables|
      invariant forall j :: 0 <= j < i ==> RowsOf(db.tables, tables[j]) == []
      invariant old(db.ops) <= db.ops && forall n :: old(db.ops) <= n < db.ops ==> !db.queryFails(n)
    {
      var answered := db.Query();
      if !answered { return Err(()); }
      if |RowsOf(db.tables, tables[i])| > 0 { return Ok(false); }
    }
    if !kvToo { return Ok(true); }
    var answered := db.Query();
    if !answered { return Err(()); }
    r := Ok(Listed(db.kv) == {});
  }

  /** No archived string is empty. */
  ghost predicate NoEmptyStrings(lines: seq<KvLine>) { forall i :: 0 <= i < |lines| ==> lines[i].content != Str([]) }

  lemma PassesIsComplete(b: Kv, lines: seq<KvLine>)
    requires KvPasses(b, lines) && NoEmptyStrings(lines)
    ensures KvComplete(b, lines)
  {
  }

  // ---------------------------------------------------------------- what a success leaves, cell by cell

  /** A cell as the engine holds it: text, except for NULL, a boolean, and an empty string in a JSONB
      column, which becomes NULL. */
  ghost predicate CellBack(c: Cell, s: Stored, jsonb: bool) {
    match s
    case SqlNull => c == Null || (jsonb && c == Text(""))
    case SqlBool(b) => c == Bool(b)
    case SqlText(text) => (c == Text(text) && !(jsonb && text == "")) || c == Number(text) || c == Nested(text)
  }

  ghost predicate RowBack(row: Row, stored: map<string, Stored>, jsonb: set<string>) {
    row.Keys == stored.Keys && forall c :: c in row ==> CellBack(row[c], stored[c], c in jsonb)
  }

  /** The table holds the row of every line that carries one, in order, and no other. */
  ghost predicate TableBack(lines: seq<Line<Row>>, rows: seq<map<string, Stored>>, jsonb: set<string>) {
    && |rows| == Carrying(lines)
    && forall i :: 0 <= i < |lines| && lines[i].Carries? ==>
         Carrying(lines[..i]) < |rows| && RowBack(lines[i].value, rows[Carrying(lines[..i])], jsonb)
  }

  /** The store holds a line's content, except that an empty string may be absent. */
  ghost predicate KeyBack(l: KvLine, kv: Kv) {
    match l.content
    case Str(v) => if l.key in kv.strings then kv.strings[l.key] == v else v == []
    case Members(ms) => ms == {} || (l.key in kv.sets && ms <= kv.sets[l.key])
    case Scores(z) => z == map[] || (l.key in kv.zsets && z.Items <= kv.zsets[l.key].Items)
  }

  lemma RowComesBack(row: Row, jsonb: set<string>)
    ensures RowBack(row, StoredRow(row, jsonb), jsonb)
  {
  }

  lemma TableComesBack(lines: seq<Line<Row>>, jsonb: set<string>)
    ensures TableBack(lines, StoredRows(Values(lines), jsonb), jsonb)
  {
    hide RowBack, Values, Carrying, StoredRow;
    CarryingCounts(lines);
    forall i | 0 <= i < |lines| && lines[i].Carries?
      ensures Carrying(lines[..i]) < |Values(lines)|
      ensures RowBack(lines[i].value, StoredRows(Values(lines), jsonb)[Carrying(lines[..i])], jsonb)
    {
      LineCarried(lines, i);
      RowComesBack(lines[i].value, jsonb);
    }
  }

  /** A line's value is among the values after those of the lines before it. */
  lemma LineCarried<T>(lines: seq<Line<T>>, i: nat)
    requires i < |lines| && lines[i].Carries?
    ensures Carrying(lines[..i]) < |Values(lines)| && Values(lines)[Carrying(lines[..i])] == lines[i].value
  {
    hide Values, Carrying;
    CarryingCounts(lines[..i]);
    LastLine(lines, i);
    ValuesPrefix(lines, i + 1);
    assert Values(lines)[|Values(lines[..i])|] == lines[i].value;
  }

  lemma KeyComesBack(l: KvLine, kv: Kv)
    requires Passes(At(kv, l.key), l.content)
    ensures KeyBack(l, kv)
  {
    if l.content.Scores? && l.content.scores != map[] {
      var z := l.content.scores;
      var m :| m in z;
      assert l.key in kv.zsets;
      forall item | item in z.Items
        ensures item in kv.zsets[l.key].Items
      {
        assert item.0 in z && z[item.0] == item.1;
      }
    }
  }

  /** A restore that went through put every line of every entry in place. */
  lemma EntriesComeBack(db: Target, tables: seq<string>, es: seq<Entry>)
    requires OneEach(es) && forall t :: t in tables ==> RowsOf(db.tables, t) == StoredRows(RowsIn(es, t), db.jsonb(t))
    requires KvPasses(db.kv, KvLinesIn(es))
    ensures forall e :: e in es && e.TableEntry? && e.table in tables ==>
      TableBack(e.lines, RowsOf(db.tables, e.table), db.jsonb(e.table))
    ensures forall e :: e in es && e.KvEntry? ==> forall l :: l in e.kvLines && l.Carries? ==> KeyBack(l.value, db.kv)
  {
    hide TableBack, KeyBack, StoredRows, RowsIn, KvLinesIn, KvPasses, Values;
    forall e | e in es && e.TableEntry? && e.table in tables
      ensures TableBack(e.lines, RowsOf(db.tables, e.table), db.jsonb(e.table))
    {
      var i :| 0 <= i < |es| && es[i] == e;
      FirstForTable(es, i);
      TableComesBack(e.lines, db.jsonb(e.table));
    }
    forall e, l | e in es && e.KvEntry? && l in e.kvLines && l.Carries?
      ensures KeyBack(l.value, db.kv)
    {
      SectionComesBack(db.kv, es, e, l);
    }
  }

  lemma SectionComesBack(kv: Kv, es: seq<Entry>, e: Entry, l: Line<KvLine>)
    requires OneEach(es) && KvPasses(kv, KvLinesIn(es)) && e in es && e.KvEntry? && l in e.kvLines && l.Carries?
    ensures KeyBack(l.value, kv)
  {
    hide KeyBack;
    var i :| 0 <= i < |es| && es[i] == e;
    var j :| 0 <= j < |e.kvLines| && e.kvLines[j] == l;
    FirstSection(es, i);
    LastLine(e.kvLines, j);
    ValuesPrefix(e.kvLines, j + 1);
    assert KvLinesIn(es)[|Values(e.kvLines[..j])|] == l.value;
    KeyComesBack(l.value, kv);
  }

  /** The manifest declares a key-value section. */
  predicate HasSection(es: seq<Entry>) { FindManifest(es).Some? && FindManifest(es).value.kvSections != [] }

  /** RestoreWithKey, from the spooled archive on. MAIN RESULT: an archive the preflight refuses
      changes nothing; success leaves exactly the archived rows in every table and, except that a
      lost empty string goes unseen, the archived content under every key; a failure leaves whole
      batches from the front of a table. A target that holds a row is refused, and one that holds a
      blob key when the archive has a key-value section. */
  method Restore(tables: seq<string>, db: Target, a: TarArchive) returns (r: Outcome)
    requires KV_RESULT !in tables
    modifies db`ops, db`tables, db`kv
    ensures r.Rejected? <==> !Accepted(tables, a)
    ensures r.Rejected? || r.NotEmpty? || r.Unanswered? ==> db.tables == old(db.tables) && db.kv == old(db.kv)
    ensures r.Restored? ==>
      forall t :: t in tables ==> RowsOf(db.tables, t) == StoredRows(RowsIn(a.entries, t), db.jsonb(t))
    ensures r.Restored? ==>
      && (forall e :: e in a.entries && e.TableEntry? ==>
            TableBack(e.lines, RowsOf(db.tables, e.table), db.jsonb(e.table)))
      && (forall e :: e in a.entries && e.KvEntry? ==>
            forall l :: l in e.kvLines && l.Carries? ==> KeyBack(l.value, db.kv))
    ensures r.Restored? ==> Applied(old(Stock(db.tables, db.kv)), Stock(db.tables, db.kv), a.entries, db.jsonb)
    ensures r.Restored? && NoEmptyStrings(KvLinesIn(a.entries)) ==> KvComplete(db.kv, KvLinesIn(a.entries))
    ensures r.Failed? ==> AppliedPartly(old(Stock(db.tables, db.kv)), Stock(db.tables, db.kv), a.entries, db.jsonb)
    ensures r.NotEmpty? ==> !old(EmptyTarget(tables, db, HasSection(a.entries)))
    ensures r.Restored? || r.Failed? ==> old(EmptyTarget(tables, db, HasSection(a.entries)))
    ensures r.NotEmpty? ==> old(Occupied(tables, db.tables, db.kv, a.entries))
    ensures r.Restored? || r.Failed? ==> !old(Occupied(tables, db.tables, db.kv, a.entries))
    ensures Accepted(tables, a) && old(EmptyTarget(tables, db, true)) && Quiet(db, old(db.kv), a.entries) ==>
      r.Restored? && AllLanded(db, old(db.kv), db.kv, KvLinesIn(a.entries))
  {
    var m := ValidateArchive(tables, a);
    if m.Err? { return Rejected(m.error); }
    OccupiedIs(tables, db, a.entries, m.value);
    var empty := RequireEmpty(tables, db, |m.value.kvSections| > 0);
    if empty.Err? { return Unanswered; }
    if !empty.value { return NotEmpty; }
    ghost var before := db.tables;
    var ok := ApplyArchive(db, a.entries, tables);
    if !ok { return Failed; }
    if NoEmptyStrings(KvLinesIn(a.entries)) { PassesIsComplete(db.kv, KvLinesIn(a.entries)); }
    forall t | t in tables
      ensures RowsOf(db.tables, t) == StoredRows(RowsIn(a.entries, t), db.jsonb(t))
    {
      assert Grown(before, db.tables, t, a.entries, db.jsonb(t)) && RowsOf(before, t) == [];
    }
    EntriesComeBack(db, tables, a.entries);
    AllowedTables(tables, a.entries);
    r := Restored;
  }

  /** A restorable table holds a row, or the archive has a key-value section and the store a blob key. */
  ghost predicate Occupied(tables: seq<string>, held: Tables, kv: Kv, es: seq<Entry>) {
    || (exists t :: t in tables && t in held && held[t] != [])
    || (exists k, m :: k in kv.strings && "srcmap:" <= k && ManifestEntry(Some(m)) in es && m.kvSections != [])
  }

  lemma OccupiedIs(tables: seq<string>, db: Target, es: seq<Entry>, m: Manifest)
    requires OneEach(es) && ManifestEntry(Some(m)) in es
    ensures Occupied(tables, db.tables, db.kv, es) <==> !EmptyTarget(tables, db, m.kvSections != [])
    ensures HasSection(es) <==> m.kvSections != []
  {
    FoundManifest(es, Some(m));
    forall other | ManifestEntry(Some(other)) in es
      ensures other == m
    {
      FoundManifest(es, Some(other));
    }
    if m.kvSections != [] && Listed(db.kv) != {} {
      var k :| k in Listed(db.kv);
      assert k in db.kv.strings && "srcmap:" <= k;
    }
    if exists k :: k in db.kv.strings && "srcmap:" <= k {
      var k :| k in db.kv.strings && "srcmap:" <= k;
      assert k in Listed(db.kv);
    }
  }

  lemma AllowedTables(tables: seq<string>, es: seq<Entry>)
    requires EntriesOk(tables, es)
    ensures forall e :: e in es && e.TableEntry? ==> e.table in tables
  {
    forall e | e in es && e.TableEntry?
      ensures e.table in tables
    {
      var i :| 0 <= i < |es| && es[i] == e;
      assert EntryFits(tables, es[i]);
    }
  }

  // ---------------------------------------------------------------- a lost empty string

  ghost predicate OwnKeys(e: Entry) { e.KvEntry? ==> NoRepeats(KeysOf(Values(e.kvLines))) }

  lemma NoKeys()
    ensures NoRepeats(KeysOf([]))
  {
  }

  /** An archive holds one section at most, so no key twice. */
  lemma {:induction false} KvKeysDiffer(es: seq<Entry>, n: nat)
    requires OneEach(es) && n <= |es| && forall j :: 0 <= j < |es| ==> OwnKeys(es[j])
    ensures NoRepeats(KeysOf(KvLinesIn(es[..n])))
  {
    hide KvLinesIn, KeysOf;
    if n == 0 {
      NoKvIn(es[..0]);
      NoKeys();
    } else {
      KvKeysDiffer(es, n - 1);
      NextKv(es, n - 1);
      if es[n - 1].KvEntry? {
        FirstSection(es, n - 1);
        assert OwnKeys(es[n - 1]);
      }
    }
  }

  lemma ArchivedKeysDiffer(tables: seq<string>, es: seq<Entry>)
    requires EntriesOk(tables, es)
    ensures NoRepeats(KeysOf(KvLinesIn(es)))
  {
    forall j | 0 <= j < |es|
      ensures OwnKeys(es[j])
    {
      assert EntryFits(tables, es[j]);
    }
    KvKeysDiffer(es, |es|);
    assert es[..|es|] == es;
  }

  const EMPTY_STORE := Kv(map[], map[], map[])

  /** What the completeness check can promise: over all targets the section's writes can leave
      behind, passing means complete exactly when no archived string is empty. */
  lemma ReadBackSeesAllButEmptyStrings(lines: seq<KvLine>)
    requires NoRepeats(KeysOf(lines))
    ensures (forall b :: KvMoved(EMPTY_STORE, b, lines) && KvPasses(b, lines) ==> KvComplete(b, lines)) <==>
      NoEmptyStrings(lines)
  {
    if NoEmptyStrings(lines) {
      forall b | KvMoved(EMPTY_STORE, b, lines) && KvPasses(b, lines)
        ensures KvComplete(b, lines)
      {
        PassesIsComplete(b, lines);
      }
    } else {
      var i :| 0 <= i < |lines| && lines[i].content == Str([]);
      WithoutEmptyStrings(lines);
      assert At(Held(lines), lines[i].key).value.None? by { LineFound(lines, i); }
      assert !Complete(At(Held(lines), lines[i].key), lines[i].content);
    }
  }

  /** The store that holds the archived content, but for the empty strings. */
  function Held(lines: seq<KvLine>): Kv {
    var m := LineMap(lines);
    Kv(map k | k in m && m[k].Str? && m[k].value != [] :: m[k].value,
       map k | k in m && m[k].Members? :: m[k].members,
       map k | k in m && m[k].Scores? :: m[k].scores)
  }

  lemma WithoutEmptyStrings(lines: seq<KvLine>)
    requires NoRepeats(KeysOf(lines))
    ensures KvMoved(EMPTY_STORE, Held(lines), lines) && KvPasses(Held(lines), lines)
  {
    forall k | k !in SetOf(KeysOf(lines))
      ensures At(EMPTY_STORE, k) == At(Held(lines), k)
    {
      LineMapKeys(lines);
    }
    forall i | 0 <= i < |lines|
      ensures Toward(At(EMPTY_STORE, lines[i].key), At(Held(lines), lines[i].key), lines[i].content)
      ensures Passes(At(Held(lines), lines[i].key), lines[i].content)
    {
      LineFound(lines, i);
    }
  }

  /** The run that shows it, for any accepted archive with an empty string: the engine reports the
      write of that key as done and loses it, everything else works, and the restore into an empty
      target reports success without the key. */
  method LoseEmptyString(tables: seq<string>, a: TarArchive, k: string) returns (db: Target, r: Outcome)
    requires KV_RESULT !in tables && Accepted(tables, a) && KvLine(k, Str([])) in KvLinesIn(a.entries)
    ensures fresh(db) && r.Restored? && k !in db.kv.strings && !KvComplete(db.kv, KvLinesIn(a.entries))
  {
    ghost var lines := KvLinesIn(a.entries);
    db := new Target(map[], EMPTY_STORE, n => WriteOutcome.Applied,
                     (n, key) => if key == k then KvDropped else KvApplied,
                     n => false, t => {});
    ArchivedKeysDiffer(tables, a.entries);
    ghost var i :| 0 <= i < |lines| && lines[i] == KvLine(k, Str([]));
    forall j | 0 <= j < |lines| && db.Lost(lines[j].key)
      ensures Passes(At(EMPTY_STORE, lines[j].key), lines[j].content)
    {
      assert KeysOf(lines)[j] == KeysOf(lines)[i];
    }
    r := Restore(tables, db, a);
    assert Landed(db, EMPTY_STORE, db.kv, lines[i]) && db.Lost(k);
    assert !Complete(At(db.kv, k), Str([]));
  }
}
