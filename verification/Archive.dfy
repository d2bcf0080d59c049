/** The backup archive as a sequence of decoded entries, and the preflight check a restore makes
    before it writes anything (internal/backup/restore.go:168-455, kvsrcmap.go:508-559). */
module Archive {
  import opened Common
  import opened KvNamespace

  // ---------------------------------------------------------------- what an archive holds

  /** A decoded JSON value of one column. Numbers keep their lexeme; nested values their text. */
  datatype Cell = Null | Text(text: string) | Number(lexeme: string) | Bool(value: bool) | Nested(json: string)

  type Row = map<string, Cell>

  /** One line of a .jsonl entry: empty, not exactly one JSON value of the right shape, or a
      value with the length of its text. */
  datatype Line<T> = Blank | Unreadable | Carries(value: T, size: nat)

  datatype Manifest = Manifest(version: int, tables: seq<string>, kvSections: seq<string>)

  datatype TableResult = TableResult(table: string, rows: int, ok: bool)

  /** An archive entry, classified by its name. */
  datatype Entry =
    | ManifestEntry(manifest: Option<Manifest>)
    | ResultsEntry(results: Option<seq<TableResult>>)
    | KvEntry(kvLines: seq<Line<KvLine>>)
    | TableEntry(table: string, lines: seq<Line<Row>>)
    | OtherEntry(name: string)

  /** The entries up to the first the tar reader cannot deliver whole; `intact` when there is none.
      A stream cut between two entries reads as a shorter intact archive. */
  datatype TarArchive = TarArchive(entries: seq<Entry>, intact: bool)

  const VERSION := 1
  const SECTION := "srcmap"
  const KV_RESULT := "kv:srcmap"
  const ROW_LIMIT := 16 * 1024 * 1024
  const MAX_VALUE := 256 * 1024 * 1024
  const KV_LIMIT := MAX_VALUE + 64 * 1024 * 1024
  const MAX_MEMBERS := 100_000

  // ---------------------------------------------------------------- lines

  predicate IdentStart(c: char) { 'a' <= c <= 'z' || c == '_' }

  /** ^[a-z_][a-z0-9_]*$ */
  predicate ValidIdent(s: string) {
    s != "" && IdentStart(s[0]) && forall i :: 0 < i < |s| ==> IdentStart(s[i]) || '0' <= s[i] <= '9'
  }

  /** decodeRestoreRow accepts the row. */
  ghost predicate RowFits(row: Row) {
    row != map[] && forall c :: c in row ==> ValidIdent(c)
  }

  /** decodeKVRow accepts the line. */
  ghost predicate KvFits(line: KvLine) {
    && NS <= line.key && '\0' !in line.key[|NS|..]
    && match line.content
       case Str(value) => |value| <= MAX_VALUE
       case Members(members) => |members| <= MAX_MEMBERS
       case Scores(scores) => |scores| <= MAX_MEMBERS && "" !in scores
  }

  ghost predicate LineFits<T(!new)>(line: Line<T>, limit: nat, fits: T -> bool) {
    match line
    case Blank => true
    case Unreadable => false
    case Carries(value, size) => size < limit && fits(value)
  }

  ghost predicate LinesFit<T(!new)>(lines: seq<Line<T>>, limit: nat, fits: T -> bool) {
    forall i :: 0 <= i < |lines| ==> LineFits(lines[i], limit, fits)
  }

  ghost predicate RowLines(lines: seq<Line<Row>>) { LinesFit(lines, ROW_LIMIT, (row: Row) => RowFits(row)) }

  /** The values of the lines that are not blank, in order. */
  function Values<T>(lines: seq<Line<T>>): seq<T> {
    if lines == [] then []
    else
      var last := lines[|lines| - 1];
      Values(lines[..|lines| - 1]) + (if last.Carries? then [last.value] else [])
  }

  ghost predicate KvLinesOk(lines: seq<Line<KvLine>>) {
    LinesFit(lines, KV_LIMIT, (l: KvLine) => KvFits(l)) && NoRepeats(KeysOf(Values(lines)))
  }

  lemma LastLine<T>(lines: seq<Line<T>>, i: nat)
    requires i < |lines|
    ensures Values(lines[..i + 1]) == Values(lines[..i]) + (if lines[i].Carries? then [lines[i].value] else [])
  {
    assert lines[..i + 1][..i] == lines[..i];
  }

  datatype Why =
    | TarBroken | SecondManifest | ManifestUnreadable | WrongVersion | SecondResults | ResultsUnreadable
    | SecondKvEntry | KvRowInvalid | KvKeyTwice | UnknownTable | SecondTableEntry | RowInvalid | LineTooLong
    | NoManifest | NoResults | DeclaredTwice | SectionTwice | UnknownSection | ResultUnknown | ResultUndeclared
    | NegativeRows | ResultTwice | Partial | NoResultFor | EntryUndeclared | CountMismatch | EntryMissing

  predicate DecodeRow(line: Line<Row>)
    ensures DecodeRow(line) <==> line.Carries? && RowFits(line.value)
  {
    line.Carries? && line.value != map[] && forall c :: c in line.value.Keys ==> ValidIdent(c)
  }

  predicate DecodeKvRow(line: Line<KvLine>)
    ensures DecodeKvRow(line) <==> line.Carries? && KvFits(line.value)
  {
    && line.Carries? && NS <= line.value.key && '\0' !in line.value.key[|NS|..]
    && match line.value.content
       case Str(value) => |value| <= MAX_VALUE
       case Members(members) => |members| <= MAX_MEMBERS
       case Scores(scores) => |scores| <= MAX_MEMBERS && "" !in scores
  }

  /** validateTableRows: the number of rows, when every line decodes. */
  method ValidateTableRows(lines: seq<Line<Row>>) returns (r: Result<nat, Why>)
    ensures r.Ok? <==> RowLines(lines)
    ensures r.Ok? ==> r.value == |Values(lines)|
  {
    var n := 0;
    for i := 0 to |lines|
      invariant RowLines(lines[..i]) && n == |Values(lines[..i])|
    {
      LastLine(lines, i);
      var line := lines[i];
      if line.Carries? && line.size >= ROW_LIMIT { return Err(LineTooLong); }
      if line != Blank {
        if !DecodeRow(line) { return Err(RowInvalid); }
        n := n + 1;
      }
    }
    assert lines[..|lines|] == lines;
    r := Ok(n);
  }

  /** validateKVRows: the same, and no key twice. */
  method ValidateKvRows(lines: seq<Line<KvLine>>) returns (r: Result<nat, Why>)
    ensures r.Ok? <==> KvLinesOk(lines)
    ensures r.Ok? ==> r.value == |Values(lines)|
  {
    var n := 0;
    var seen: set<string> := {};
    for i := 0 to |lines|
      invariant KvLinesOk(lines[..i]) && n == |Values(lines[..i])|
      invariant seen == SetOf(KeysOf(Values(lines[..i])))
    {
      KvPrefix(lines, i + 1);
      KvStep(lines, i);
      var line := lines[i];
      if line.Carries? && line.size >= KV_LIMIT { return Err(LineTooLong); }
      if line != Blank {
        if !DecodeKvRow(line) { return Err(KvRowInvalid); }
        if line.value.key in seen { return Err(KvKeyTwice); }
        seen, n := seen + {line.value.key}, n + 1;
      }
    }
    assert lines[..|lines|] == lines;
    r := Ok(n);
  }

  ghost predicate KvLineFits(line: Line<KvLine>) { LineFits(line, KV_LIMIT, (l: KvLine) => KvFits(l)) }

  lemma KvLinesAre(lines: seq<Line<KvLine>>)
    ensures KvLinesOk(lines) <==>
      (forall i :: 0 <= i < |lines| ==> KvLineFits(lines[i])) && NoRepeats(KeysOf(Values(lines)))
  {
  }

  /** One more line: it must fit, and its key must be new. */
  lemma KvStep(lines: seq<Line<KvLine>>, i: nat)
    requires i < |lines| && KvLinesOk(lines[..i])
    ensures KvLinesOk(lines[..i + 1]) <==>
      KvLineFits(lines[i]) && (lines[i].Carries? ==> lines[i].value.key !in SetOf(KeysOf(Values(lines[..i]))))
    ensures |Values(lines[..i + 1])| == |Values(lines[..i])| + if lines[i].Carries? then 1 else 0
    ensures SetOf(KeysOf(Values(lines[..i + 1]))) ==
      SetOf(KeysOf(Values(lines[..i]))) + if lines[i].Carries? then {lines[i].value.key} else {}
  {
    LastLine(lines, i);
    var before := Values(lines[..i]);
    assert LinesFit(lines[..i + 1], KV_LIMIT, (l: KvLine) => KvFits(l)) <==> KvLineFits(lines[i]) by {
      assert forall j :: 0 <= j < i ==> lines[..i + 1][j] == lines[..i][j];
    }
    if lines[i].Carries? {
      LineMapAppend(before, lines[i].value);
      NewKey(KeysOf(before), lines[i].value.key);
    } else {
      assert Values(lines[..i + 1]) == before;
    }
  }

  lemma NewKey(keys: seq<string>, k: string)
    requires NoRepeats(keys)
    ensures NoRepeats(keys + [k]) <==> k !in SetOf(keys)
    ensures SetOf(keys + [k]) == SetOf(keys) + {k}
  {
    if k in keys {
      var i :| 0 <= i < |keys| && keys[i] == k;
      assert (keys + [k])[i] == (keys + [k])[|keys|];
    }
  }

  lemma {:induction false} KvPrefix(lines: seq<Line<KvLine>>, n: nat)
    requires n <= |lines|
    ensures KvLinesOk(lines) ==> KvLinesOk(lines[..n])
    decreases |lines| - n
  {
    if n == |lines| {
      assert lines[..n] == lines;
    } else {
      KvPrefix(lines, n + 1);
      LastLine(lines, n);
      assert KeysOf(Values(lines[..n])) <= KeysOf(Values(lines[..n + 1]));
    }
  }
}
