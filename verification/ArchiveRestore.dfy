/** The apply pass of a restore: bounded batches per table, then the key-value section with its
    read-back (internal/backup/restore.go:72-144, 457-644, kvsrcmap.go:561-692). */
module ArchiveRestore {
  import opened Common
  import opened KvNamespace
  import opened Archive

  // ---------------------------------------------------------------- stored rows

  datatype Stored = SqlNull | SqlText(text: string) | SqlBool(value: bool)

  /** formatValue: an empty string in a JSONB column becomes NULL. */
  function Format(c: Cell, jsonb: bool): Stored {
    match c
    case Null => SqlNull
    case Text(s) => if jsonb && s == "" then SqlNull else SqlText(s)
    case Number(lexeme) => SqlText(lexeme)
    case Bool(b) => SqlBool(b)
    case Nested(json) => SqlText(json)
  }

  function StoredRow(row: Row, jsonb: set<string>): map<string, Stored> {
    map c | c in row :: Format(row[c], c in jsonb)
  }

  function StoredRows(rows: seq<Row>, jsonb: set<string>): (r: seq<map<string, Stored>>)
    ensures |r| == |rows|
  {
    seq(|rows|, i requires 0 <= i < |rows| => StoredRow(rows[i], jsonb))
  }

  type Tables = map<string, seq<map<string, Stored>>>

  function RowsOf(tables: Tables, t: string): seq<map<string, Stored>> { if t in tables then tables[t] else [] }

  const BATCH := 500

  // ---------------------------------------------------------------- one key of the store

  datatype Slot = Slot(value: Option<seq<byte>>, members: set<string>, scores: map<string, real>)

  function At(kv: Kv, k: string): Slot {
    Slot(if k in kv.strings then Some(kv.strings[k]) else None,
         if k in kv.sets then kv.sets[k] else {},
         if k in kv.zsets then kv.zsets[k] else map[])
  }

  function PutString(kv: Kv, k: string, v: seq<byte>): Kv { kv.(strings := kv.strings[k := v]) }

  function AddMember(kv: Kv, k: string, m: string): Kv { kv.(sets := kv.sets[k := At(kv, k).members + {m}]) }

  function AddScore(kv: Kv, k: string, m: string, s: real): Kv { kv.(zsets := kv.zsets[k := At(kv, k).scores[m := s]]) }

  /** The key went from `o` to `n` by writes of `c` only. */
  ghost predicate Toward(o: Slot, n: Slot, c: Content) {
    match c
    case Str(v) => n.members == o.members && n.scores == o.scores && (n.value == o.value || n.value == Some(v))
    case Members(ms) => n.value == o.value && n.scores == o.scores && o.members <= n.members <= o.members + ms
    case Scores(z) =>
      && n.value == o.value && n.members == o.members && o.scores.Keys <= n.scores.Keys <= o.scores.Keys + z.Keys
      && forall m :: m in n.scores ==> (m in o.scores && n.scores[m] == o.scores[m]) || (m in z && n.scores[m] == z[m])
  }

  /** What was archived is there. */
  predicate Complete(n: Slot, c: Content) {
    match c
    case Str(v) => n.value == Some(v)
    case Members(ms) => ms <= n.members
    case Scores(z) => forall m :: m in z ==> m in n.scores && n.scores[m] == z[m]
  }

  /** What the completeness check looks for. It reads an absent string as no bytes, so it cannot
      tell a lost empty string from one that is there. */
  predicate Passes(n: Slot, c: Content) {
    if c.Str? then (if n.value.Some? then n.value.value else []) == c.value else Complete(n, c)
  }

  /** After a complete write a key holds what it held before and what was archived. */
  lemma CompleteIsMerged(o: Slot, n: Slot, c: Content)
    requires Toward(o, n, c) && Complete(n, c)
    ensures c.Str? ==> n.value == Some(c.value)
    ensures c.Members? ==> n.members == o.members + c.members
    ensures c.Scores? ==> n.scores == o.scores + c.scores
  {
  }

  ghost predicate SameElsewhere(a: Kv, b: Kv, keys: set<string>) {
    forall k :: k !in keys ==> At(a, k) == At(b, k)
  }

  /** A write to the store: applied, failed either way, or reported as done and lost. */
  datatype KvFate = KvApplied | KvFailed(landed: bool) | KvDropped

  // ---------------------------------------------------------------- the target database

  class Target {
    const fate: nat -> WriteOutcome
    const kvFate: (nat, string) -> KvFate   // by write and key
    const queryFails: nat -> bool
    const jsonb: string -> set<string>
    var ops: nat
    var tables: Tables
    var kv: Kv

    constructor (tables: Tables, kv: Kv, fate: nat -> WriteOutcome, kvFate: (nat, string) -> KvFate,
                 queryFails: nat -> bool, jsonb: string -> set<string>)
      ensures this.tables == tables && this.kv == kv && this.fate == fate && this.kvFate == kvFate
      ensures this.queryFails == queryFails && this.jsonb == jsonb && ops == 0
    {
      this.fate, this.kvFate, this.queryFails, this.jsonb := fate, kvFate, queryFails, jsonb;
      this.ops, this.tables, this.kv := 0, tables, kv;
    }

    /** Nothing fails, but writes under some keys may be lost without a word. */
    ghost predicate Steady() {
      && (forall n :: fate(n) == Applied) && (forall n :: !queryFails(n))
      && (forall n, k :: kvFate(n, k) == if Lost(k) then KvDropped else KvApplied)
    }

    ghost predicate Lost(k: string) { kvFate(0, k) == KvDropped }

    ghost predicate Reliable() { Steady() && forall k :: !Lost(k) }

    method Query() returns (ok: bool)
      modifies this`ops
      ensures ops == old(ops) + 1 && (ok <==> !queryFails(old(ops)))
    {
      ok := !queryFails(ops);
      ops := ops + 1;
    }

    /** insertBatch: one transaction, all rows or none; a failed commit may still have landed. */
    method InsertBatch(t: string, rows: seq<Row>) returns (ok: bool)
      modifies this`ops, this`tables
      ensures ops == old(ops) + 1 && (ok <==> fate(old(ops)) == Applied)
      ensures tables == if fate(old(ops)) == FailedUnwritten then old(tables)
                        else old(tables)[t := RowsOf(old(tables), t) + StoredRows(rows, jsonb(t))]
    {
      var o := fate(ops);
      ops := ops + 1;
      if o.Landed() { tables := tables[t := RowsOf(tables, t) + StoredRows(rows, jsonb(t))]; }
      ok := o.Reported();
    }

    method KvWrite(k: string, next: Kv) returns (ok: bool)
      modifies this`ops, this`kv
      ensures ops == old(ops) + 1 && (ok <==> !kvFate(old(ops), k).KvFailed?)
      ensures var f := kvFate(old(ops), k); kv == if f == KvApplied || f == KvFailed(true) then next else old(kv)
    {
      var f := kvFate(ops, k);
      ops := ops + 1;
      if f == KvApplied || f == KvFailed(true) { kv := next; }
      ok := !f.KvFailed?;
    }

    // ---------------------------------------------------------------- tables

    /** restoreTable: `done` rows of this table were written, a whole number of batches or all. */
    method RestoreTable(t: string, lines: seq<Line<Row>>) returns (ok: bool, ghost done: nat)
      modifies this`ops, this`tables
      ensures done <= |Values(lines)| && (done % 500 == 0 || done == |Values(lines)|)
      ensures ok ==> done == |Values(lines)| && RowLines(lines) && !queryFails(old(ops))
      ensures Wrote(old(tables), tables, t, Values(lines)[..done], jsonb(t))
      ensures Steady() && RowLines(lines) ==> ok
    {
      NothingWritten(t, lines);
      hide Wrote, Values, RowFits, LineFits;
      done := 0;
      var looked := Query();
      if !looked { return false, done; }
      var batch: seq<Row> := [];
      for i := 0 to |lines|
        invariant Batched(Values(lines[..i]), done, batch)
        invariant Wrote(old(tables), tables, t, Values(lines[..i])[..done], jsonb(t))
        invariant RowLines(lines[..i])
      {
        ValuesStep(lines, i);
        ok, done, batch := TakeLine(t, lines[i], batch, Values(lines[..i]), done, old(tables));
        assert Values(lines[..i + 1])[..done] == Values(lines)[..done];
        if !ok { return; }
      }
      assert lines[..|lines|] == lines;
      ok := true;
      if batch != [] { ok, done := Flush(t, batch, Values(lines), done, old(tables)); }
    }

    lemma NothingWritten(t: string, lines: seq<Line<Row>>)
      ensures Wrote(tables, tables, t, Values(lines)[..0], jsonb(t))
      ensures Values(lines[..0]) == [] && RowLines(lines[..0])
    {
    }

    /** One line: decoded into the batch, which is flushed when full. */
    method TakeLine(t: string, line: Line<Row>, batch: seq<Row>, ghost rows: seq<Row>, ghost before: nat,
                    ghost tables0: Tables)
        returns (ok: bool, ghost done: nat, batch': seq<Row>)
      requires Batched(rows, before, batch) && Wrote(tables0, tables, t, rows[..before], jsonb(t))
      modifies this`ops, this`tables
      ensures ok ==> Batched(rows + Carried(line), done, batch')
      ensures ok ==> LineFits(line, ROW_LIMIT, (row: Row) => RowFits(row))
      ensures done <= |rows + Carried(line)| && (done % BATCH == 0)
      ensures Wrote(tables0, tables, t, (rows + Carried(line))[..done], jsonb(t))
      ensures Steady() && LineFits(line, ROW_LIMIT, (row: Row) => RowFits(row)) ==> ok
    {
      ok, done, batch' := true, before, batch;
      assert (rows + Carried(line))[..before] == rows[..before];
      if line.Carries? && line.size >= ROW_LIMIT { return false, done, batch; }
      if line != Blank {
        var decoded := DecodeRow(line);
        if !decoded { return false, done, batch; }
        batch' := batch + [line.value];
        if |batch'| >= BATCH {
          ok, done := Flush(t, batch', rows + [line.value], before, tables0);
          batch' := [];
        }
      }
    }

    method Flush(t: string, batch: seq<Row>, ghost rows: seq<Row>, ghost before: nat, ghost tables0: Tables)
        returns (ok: bool, ghost done: nat)
      requires before + |batch| == |rows| && batch == rows[before..]
      requires Wrote(tables0, tables, t, rows[..before], jsonb(t))
      modifies this`ops, this`tables
      ensures done == before || done == |rows|
      ensures ok ==> done == |rows|
      ensures Wrote(tables0, tables, t, rows[..done], jsonb(t))
      ensures Steady() ==> ok
    {
      ghost var tables1 := tables;
      ok := InsertBatch(t, batch);
      done := if ok || tables != tables1 then |rows| else before;
      WroteMore(tables0, tables1, t, rows[..before], batch, jsonb(t));
      assert rows[..|rows|] == rows[..before] + batch;
    }
  }

  /** `rows`, and nothing else, were appended to table t. */
  ghost predicate Wrote(a: Tables, b: Tables, t: string, rows: seq<Row>, jsonb: set<string>) {
    b == a[t := RowsOf(a, t) + StoredRows(rows, jsonb)] || (rows == [] && b == a)
  }

  lemma WroteMore(a: Tables, b: Tables, t: string, rows: seq<Row>, more: seq<Row>, jsonb: set<string>)
    requires Wrote(a, b, t, rows, jsonb)
    ensures Wrote(a, b[t := RowsOf(b, t) + StoredRows(more, jsonb)], t, rows + more, jsonb)
  {
    assert StoredRows(rows + more, jsonb) == StoredRows(rows, jsonb) + StoredRows(more, jsonb);
    if b == a { assert rows == [] ==> rows + more == more; }
    Associative(RowsOf(a, t), StoredRows(rows, jsonb), StoredRows(more, jsonb));
  }

  ghost predicate Batched(rows: seq<Row>, done: nat, batch: seq<Row>) {
    done + |batch| == |rows| && batch == rows[done..] && done % BATCH == 0 && |batch| < BATCH
  }

  function Carried(line: Line<Row>): seq<Row> { if line.Carries? then [line.value] else [] }

  lemma ValuesStep(lines: seq<Line<Row>>, i: nat)
    requires i < |lines|
    ensures Values(lines[..i + 1]) == Values(lines[..i]) + Carried(lines[i])
    ensures Values(lines[..i + 1]) <= Values(lines)
  {
    LastLine(lines, i);
    ValuesPrefix(lines, i + 1);
  }

  lemma {:induction false} ValuesPrefix<T>(lines: seq<Line<T>>, n: nat)
    requires n <= |lines|
    ensures Values(lines[..n]) <= Values(lines)
    decreases |lines| - n
  {
    if n == |lines| {
      assert lines[..n] == lines;
    } else {
      ValuesPrefix(lines, n + 1);
      LastLine(lines, n);
    }
  }
}
