/** The static cohort service over one cohort's rows (internal/cohorts/static.go:182-522,
    cohorts.go:496-684): every write may fail with or without having landed, and chunked writes may
    stop half-way. */
module StaticCohorts {
  import opened Common
  import opened StaticMembers
  import RuleTree

  const CHUNK := 1000
  const MAX_ROWS := 600_000

  /** What the stored rule of a cohort says. */
  datatype Kind = StaticKind | RuleKind(rule: RuleTree.Definition) | UnreadableRule

  /** A version of the cohort's summary row. An empty name is a tombstone. */
  datatype Cohort = Cohort(name: string, description: string, kind: Kind, memberCount: int,
                           createdAt: int64, updatedAt: int64)

  datatype Error = NotFound | NotStatic | BadRule | ReadFailed | BadIds(why: IdError) | OverBudget | TooManyRows
                 | VersionsExhausted | TooManyMembers | WriteFailed | BadName | RuleOnStatic
                 | StaticOnRule | EvaluationFailed

  // ---------------------------------------------------------------- the summary's versions

  /** The row Get picks: the first with the highest updated_at. */
  function Latest(s: seq<Cohort>): (c: Cohort)
    requires s != []
    ensures c in s && forall x :: x in s ==> x.updatedAt <= c.updatedAt
  {
    if |s| == 1 then s[0]
    else
      var before := Latest(s[..|s| - 1]);
      if s[|s| - 1].updatedAt > before.updatedAt then s[|s| - 1] else before
  }

  /** The cohort as Get shows it. */
  function Shown(s: seq<Cohort>): Option<Cohort> {
    if s == [] || Latest(s).name == "" then None else Some(Latest(s))
  }

  lemma LatestOfAppend(s: seq<Cohort>, c: Cohort)
    ensures s == [] || Latest(s).updatedAt < c.updatedAt ==> Latest(s + [c]) == c
    ensures s != [] && c.updatedAt <= Latest(s).updatedAt ==> Latest(s + [c]) == Latest(s)
  {
    assert (s + [c])[..|s|] == s;
  }

  /** The version of a new summary: the clock's reading, or one past the version it replaces, which
      wraps round at the end of 64 bits. */
  function Later(was: int64, now: int64): (at: int64)
    ensures now > was ==> at == now
    ensures now <= was < MAX_INT64 ==> at == was + 1
    ensures at > was <==> was < MAX_INT64
  {
    if now > was then now else if was == MAX_INT64 then MIN_INT64 else was + 1
  }

  /** memberVersionAbove. */
  function VersionAbove(high: int64, now: int64): (v: Option<int64>)
    ensures v.None? <==> high == MAX_INT64
    ensures v.Some? ==> v.value > high && (v.value == now || v.value == high + 1) && (now > high ==> v.value == now)
  {
    if high == MAX_INT64 then None else Some(if now <= high then high + 1 else now)
  }

  /** The version an edit gets: the clock's reading if that is above all that is stored, and one
      past the highest version stored if not. */
  ghost predicate NextVersion(v: int, rows: seq<MemberRow>, summary: int64, now: int64) {
    && summary < v && Above(rows, v)
    && (if now > summary && Above(rows, now) then v == now
        else v - 1 == summary || exists m :: m in rows && m.version == v - 1)
  }

  /** In so many words. */
  lemma NextVersionMeans(v: int, rows: seq<MemberRow>, summary: int64, now: int64)
    requires NextVersion(v, rows, summary, now)
    ensures v > summary && forall m :: m in rows ==> m.version < v
    ensures now > summary && (forall m :: m in rows ==> m.version < now) ==> v == now
    ensures now <= summary || (exists m :: m in rows && m.version >= now) ==>
      v == summary + 1 || exists m :: m in rows && v == m.version + 1
  {
    if exists m :: m in rows && m.version == v - 1 {
      var m :| m in rows && m.version == v - 1;
      assert v == m.version + 1;
    }
  }

  // ---------------------------------------------------------------- what an edit may leave behind

  /** Two versions of one cohort that differ in count and version only. */
  predicate SameCohort(a: Cohort, b: Cohort) { b == a.(memberCount := b.memberCount, updatedAt := b.updatedAt) }

  /** A set between two others, whichever way the edit goes. */
  predicate Between(a: set<string>, m: set<string>, b: set<string>) {
    (a <= m <= b) || (b <= m <= a)
  }

  /** Some rows, all newer than anything stored before. */
  ghost predicate OnlyNewer(before: seq<MemberRow>, after: seq<MemberRow>, summaries: seq<Cohort>) {
    && before <= after
    && (forall i, j :: |before| <= i < |after| && 0 <= j < |before| ==> after[i].version > before[j].version)
    && (summaries != [] ==> (forall i :: |before| <= i < |after| ==> after[i].version > Latest(summaries).updatedAt))
  }

  function Fresh(ids: seq<string>, live: set<string>, at: int64): seq<Edit> {
    if ids == [] then []
    else
      var id := ids[|ids| - 1];
      Fresh(ids[..|ids| - 1], live, at) + (if id in live then [] else [Edit(id, at, 0)])
  }

  function Gone(ids: seq<string>, live: map<string, int64>): seq<Edit> {
    if ids == [] then []
    else
      var id := ids[|ids| - 1];
      Gone(ids[..|ids| - 1], live) + (if id in live then [Edit(id, live[id], 1)] else [])
  }

  lemma EditIdsOfAppend(edits: seq<Edit>, e: Edit)
    ensures EditIds(edits + [e]) == EditIds(edits) + {e.id}
  {
    forall id | id in EditIds(edits) + {e.id}
      ensures id in EditIds(edits + [e])
    {
      if id in EditIds(edits) {
        var x :| x in edits && x.id == id;
        assert x in edits + [e];
      } else {
        assert e in edits + [e];
      }
    }
  }

  lemma LastId(ids: seq<string>)
    requires ids != [] && NoRepeats(ids)
    ensures NoRepeats(ids[..|ids| - 1]) && ids[|ids| - 1] !in SetOf(ids[..|ids| - 1])
    ensures SetOf(ids) == SetOf(ids[..|ids| - 1]) + {ids[|ids| - 1]}
  {
    assert ids == ids[..|ids| - 1] + [ids[|ids| - 1]];
  }

  lemma {:induction false} FreshIs(ids: seq<string>, live: set<string>, at: int64)
    requires NoRepeats(ids) && "" !in ids
    ensures UniformEdits(Fresh(ids, live, at), 0) && EditIds(Fresh(ids, live, at)) == SetOf(ids) - live
  {
    if ids != [] {
      var front, id := ids[..|ids| - 1], ids[|ids| - 1];
      FreshIs(front, live, at);
      LastId(ids);
      if id in live {
        assert SetOf(ids) - live == SetOf(front) - live;
      } else {
        EditIdsOfAppend(Fresh(front, live, at), Edit(id, at, 0));
        assert SetOf(ids) - live == (SetOf(front) - live) + {id};
      }
    }
  }

  lemma {:induction false} GoneIs(ids: seq<string>, live: map<string, int64>)
    requires NoRepeats(ids) && "" !in ids
    ensures UniformEdits(Gone(ids, live), 1) && EditIds(Gone(ids, live)) == SetOf(ids) * live.Keys
  {
    if ids != [] {
      var front, id := ids[..|ids| - 1], ids[|ids| - 1];
      GoneIs(front, live);
      LastId(ids);
      if id in live {
        EditIdsOfAppend(Gone(front, live), Edit(id, live[id], 1));
        assert SetOf(ids) * live.Keys == (SetOf(front) * live.Keys) + {id};
      } else {
        assert SetOf(ids) * live.Keys == SetOf(front) * live.Keys;
      }
    }
  }

  lemma {:induction false} FreshAt(ids: seq<string>, live: set<string>, at: int64)
    ensures forall e :: e in Fresh(ids, live, at) ==> e.addedAt == at && e.removed == 0
  {
    if ids != [] { FreshAt(ids[..|ids| - 1], live, at); }
  }

  lemma {:induction false} GoneAt(ids: seq<string>, live: map<string, int64>)
    ensures forall e :: e in Gone(ids, live) ==> e.id in live && e.addedAt == live[e.id] && e.removed == 1
  {
    if ids != [] { GoneAt(ids[..|ids| - 1], live); }
  }

  lemma {:induction false} FreshCount(ids: seq<string>, live: set<string>, at: int64)
    requires NoRepeats(ids)
    ensures |Fresh(ids, live, at)| == |SetOf(ids) - live|
  {
    if ids != [] {
      var front, id := ids[..|ids| - 1], ids[|ids| - 1];
      FreshCount(front, live, at);
      LastId(ids);
      assert SetOf(ids) - live == if id in live then SetOf(front) - live else (SetOf(front) - live) + {id};
    }
  }

  lemma {:induction false} GoneCount(ids: seq<string>, live: map<string, int64>)
    requires NoRepeats(ids)
    ensures |Gone(ids, live)| == |SetOf(ids) * live.Keys|
  {
    if ids != [] {
      var front, id := ids[..|ids| - 1], ids[|ids| - 1];
      GoneCount(front, live);
      LastId(ids);
      assert SetOf(ids) * live.Keys ==
        if id in live then (SetOf(front) * live.Keys) + {id} else SetOf(front) * live.Keys;
    }
  }

  /** How many of `total` edits the first chunks hold. */
  function Reached(chunks: nat, total: nat): nat { if CHUNK * chunks > total then total else CHUNK * chunks }

  lemma NextChunk(rows: seq<MemberRow>, edits: seq<Edit>, start: nat, end: nat, version: int64)
    requires start <= end <= |edits|
    ensures rows + Records(edits[..start], version) + Records(edits[start..end], version) ==
      rows + Records(edits[..end], version)
  {
    ChunkRecords(edits, start, end, version);
    Associative(rows, Records(edits[..start], version), Records(edits[start..end], version));
  }

  lemma ChunkRecords(edits: seq<Edit>, start: nat, end: nat, version: int64)
    requires start <= end <= |edits|
    ensures Records(edits[..start], version) + Records(edits[start..end], version) == Records(edits[..end], version)
  {
    var a, b, all := Records(edits[..start], version), Records(edits[start..end], version),
                       Records(edits[..end], version);
    forall i | 0 <= i < end
      ensures (a + b)[i] == all[i]
    {
    }
  }

  lemma PrefixOfEdits(edits: seq<Edit>, k: nat)
    requires k <= |edits|
    ensures EditIds(edits[..k]) <= EditIds(edits)
    ensures forall removed: int64 :: UniformEdits(edits, removed) ==> UniformEdits(edits[..k], removed)
  {
  }

  // ---------------------------------------------------------------- the service

  class Service {
    const fate: nat -> WriteOutcome
    const readFails: nat -> bool
    const clock: nat -> int64
    const maxScan: int          // 0 or less: no budget
    var ops: nat
    var members: seq<MemberRow>
    var summaries: seq<Cohort>

    constructor (fate: nat -> WriteOutcome, readFails: nat -> bool, clock: nat -> int64, maxScan: int)
      ensures members == [] && summaries == []
    {
      this.fate, this.readFails, this.clock, this.maxScan := fate, readFails, clock, maxScan;
      ops, members, summaries := 0, [], [];
    }

    ghost predicate Reliable() { (forall n :: fate(n) == Applied) && forall n :: !readFails(n) }

    /** The raw rows one read may pull. */
    function RowLimit(): int { if 0 < maxScan < MAX_ROWS then maxScan else MAX_ROWS }

    method Tick() returns (now: int64)
      modifies this`ops
      ensures now == clock(old(ops)) && ops == old(ops) + 1
    {
      now := clock(ops);
      ops := ops + 1;
    }

    method Query() returns (ok: bool)
      modifies this`ops
      ensures ops == old(ops) + 1 && (ok <==> !readFails(old(ops)))
    {
      ok := !readFails(ops);
      ops := ops + 1;
    }

    method Get() returns (r: Result<Option<Cohort>, Error>)
      modifies this`ops
      ensures r.Ok? ==> r.value == Shown(summaries)
      ensures r.Ok? && r.value.Some? ==>
        (r.value.value in summaries && r.value.value.name != ""
         && forall c :: c in summaries ==> c.updatedAt <= r.value.value.updatedAt)
      ensures r.Ok? && r.value.None? && summaries != [] ==> exists c ::
        c in summaries && c.name == "" && forall x :: x in summaries ==> x.updatedAt <= c.updatedAt
      ensures r.Ok? <==> !readFails(old(ops))
      ensures r.Err? ==> r == Err(ReadFailed)
      ensures ops == old(ops) + 1
      ensures Reliable() ==> r.Ok?
    {
      var ok := Query();
      if !ok { return Err(ReadFailed); }
      if |summaries| == 0 { return Ok(None); }
      var winner := summaries[0];
      for i := 1 to |summaries|
        invariant winner == Latest(summaries[..i])
      {
        assert summaries[..i + 1][..i] == summaries[..i];
        if summaries[i].updatedAt > winner.updatedAt { winner := summaries[i]; }
      }
      assert summaries[..|summaries|] == summaries;
      if winner.name == "" { return Ok(None); }
      r := Ok(Some(winner));
    }

    method GetStatic() returns (r: Result<Cohort, Error>)
      modifies this`ops
      ensures r.Ok? ==> Shown(summaries) == Some(r.value) && r.value.kind == StaticKind
      ensures Reliable() && Shown(summaries).Some? && Shown(summaries).value.kind == StaticKind ==> r.Ok?
      ensures Shown(summaries).None? ==> r == Err(NotFound) || r == Err(ReadFailed)
      ensures ops == old(ops) + 1
    {
      var c := Get();
      if c.Err? { return Err(c.error); }
      if c.value.None? { return Err(NotFound); }
      match c.value.value.kind
      case UnreadableRule => r := Err(BadRule);
      case RuleKind(_) => r := Err(NotStatic);
      case StaticKind => r := Ok(c.value.value);
    }

    /** One bounded query for the cohort's rows: one more than the limit is asked for, so an
        overrun shows. Nothing short of every row is ever used. */
    method FetchRows() returns (r: Result<seq<MemberRow>, Error>)
      modifies this`ops
      ensures ops == old(ops) + 1 && (r.Ok? ==> r.value == members)
      ensures |members| > RowLimit() ==> r.Err?
      ensures Reliable() && |members| <= RowLimit() ==> r.Ok?
      ensures r.Ok? <==> !readFails(old(ops)) && |members| <= 600_000 && (maxScan > 0 ==> |members| <= maxScan)
    {
      var ok := Query();
      if !ok { return Err(ReadFailed); }
      var rows := if |members| > RowLimit() + 1 then members[..RowLimit() + 1] else members;
      if maxScan > 0 && |rows| > maxScan { return Err(OverBudget); }
      if |rows| > MAX_ROWS { return Err(TooManyRows); }
      r := Ok(rows);
    }

    method ReadStatic() returns (r: Result<map<string, int64>, Error>)
      modifies this`ops
      ensures ops == old(ops) + 1
      ensures r.Ok? ==> r.value.Keys == Live(members) && forall id :: id in r.value ==> Since(members, id, r.value[id])
      ensures |members| > RowLimit() ==> r.Err?
      ensures Reliable() && |members| <= RowLimit() ==> r.Ok?
    {
      var rows := FetchRows();
      if rows.Err? { return Err(rows.error); }
      var live := CollapseMembers(rows.value);
      r := Ok(live);
    }

    /** nextMemberVersion: above every stored row, tombstones included, above the summary, and at
        the clock's time if that is above both. */
    method NextMemberVersion(summary: int64, now: int64) returns (r: Result<int64, Error>)
      modifies this`ops
      ensures ops == old(ops) + 1 && (r.Ok? ==> NextVersion(r.value, members, summary, now))
      ensures Reliable() && |members| <= RowLimit() && summary < MAX_INT64 && Above(members, MAX_INT64) ==> r.Ok?
    {
      var rows := FetchRows();
      if rows.Err? { return Err(rows.error); }
      var high: int64 := summary;
      for i := 0 to |rows.value|
        invariant summary <= high && forall j :: 0 <= j < i ==> rows.value[j].version <= high
        invariant high == summary || exists m :: m in members && m.version == high
        invariant now > summary && Above(members, now) ==> high < now
        invariant summary < MAX_INT64 && Above(members, MAX_INT64) ==> high < MAX_INT64
      {
        assert rows.value[i] in members;
        if rows.value[i].version > high { high := rows.value[i].version; }
      }
      assert Above(members, high as int + 1);
      var v := VersionAbove(high, now);
      r := if v.None? then Err(VersionsExhausted) else Ok(v.value);
    }

    /** insertMembers: one statement a chunk. The first `chunks` of them landed. */
    method InsertMembers(edits: seq<Edit>, version: int64) returns (ok: bool, ghost chunks: nat)
      modifies this`ops, this`members
      ensures members == old(members) + Records(edits[..Reached(chunks, |edits|)], version)
      ensures (|members| - |old(members)|) % 1000 == 0 || |members| - |old(members)| == |edits|
      ensures ok ==> Reached(chunks, |edits|) == |edits|
      ensures Reliable() ==> ok
    {
      chunks := 0;
      var start := 0;
      while start < |edits|
        invariant start == Reached(chunks, |edits|)
        invariant members == old(members) + Records(edits[..start], version)
      {
        var end := if start + CHUNK > |edits| then |edits| else start + CHUNK;
        NextChunk(old(members), edits, start, end, version);
        assert end == Reached(chunks + 1, |edits|);
        ghost var landed;
        ok, landed := InsertChunk(edits[start..end], version);
        if landed { chunks := chunks + 1; }
        if !ok { return; }
        start := end;
      }
      ok := true;
    }

    method InsertChunk(edits: seq<Edit>, version: int64) returns (ok: bool, ghost landed: bool)
      modifies this`ops, this`members
      ensures members == if landed then old(members) + Records(edits, version) else old(members)
      ensures ok ==> landed
      ensures Reliable() ==> ok
    {
      var o := fate(ops);
      ops := ops + 1;
      landed := o.Landed();
      if o.Landed() { members := members + Records(edits, version); }
      ok := o.Reported();
    }

    /** putCohortRow. */
    method PutSummary(c: Cohort) returns (ok: bool)
      modifies this`ops, this`summaries
      ensures summaries == old(summaries) || summaries == old(summaries) + [c]
      ensures ok ==> summaries == old(summaries) + [c]
      ensures Reliable() ==> ok
    {
      var o := fate(ops);
      ops := ops + 1;
      if o.Landed() { summaries := summaries + [c]; }
      ok := o.Reported();
    }

    // ---------------------------------------------------------------- edits

    /** What every edit keeps, however it ends: rows are only ever added, at new versions, and the
        membership bound stands. */
    twostate predicate Kept()
      reads this
    {
      && OnlyNewer(old(members), members, old(summaries)) && old(summaries) <= summaries
      && |summaries| <= |old(summaries)| + 1
      && (|old(Live(members))| <= MAX_MEMBERS ==> |Live(members)| <= MAX_MEMBERS)
    }

    /** An edit that changed someone, or found a stale count, left the summary at a new version; any
        other left it alone. */
    twostate predicate Restamped(c: Cohort, changed: nat)
      reads this
    {
      && old(Shown(summaries)).Some? && var was := old(Shown(summaries)).value;
      if changed == 0 && was.memberCount == |old(Live(members))| then c == was
      else NextVersion(c.updatedAt, old(members), was.updatedAt, clock(old(ops) + 2))
    }

    /** The shared end of an edit: write the rows, then the summary with the new count. */
    method Commit(c: Cohort, edits: seq<Edit>, removed: int64, version: int64, count: int)
        returns (r: Result<Cohort, Error>)
      requires Above(members, version) && UniformEdits(edits, removed)
      requires summaries != [] && Latest(summaries) == c && c.updatedAt < version
      modifies this`ops, this`members, this`summaries
      ensures OnlyNewer(old(members), members, old(summaries)) && old(summaries) <= summaries
      ensures |summaries| <= |old(summaries)| + 1
      ensures Between(old(Live(members)), Live(members), Edited(old(Live(members)), EditIds(edits), removed))
      ensures r.Ok? ==> Live(members) == Edited(old(Live(members)), EditIds(edits), removed)
      ensures |members| - |old(members)| <= |edits|
      ensures members == old(members) + Records(edits[..|members| - |old(members)|], version)
      ensures r.Ok? ==> r.value == c.(memberCount := count, updatedAt := version) && Latest(summaries) == r.value
      ensures Reliable() ==> r.Ok?
    {
      hide Records, Latest;
      ghost var rows0 := members;
      var ok;
      ghost var chunks;
      ok, chunks := InsertMembers(edits, version);
      ghost var done := Reached(chunks, |edits|);
      PrefixOfEdits(edits, done);
      BatchDecides(rows0, edits[..done], version, removed);
      assert ok ==> edits[..done] == edits;
      assert forall i :: |rows0| <= i < |members| ==> members[i] == Records(edits[..done], version)[i - |rows0|];
      if !ok { return Err(WriteFailed); }
      var next := c.(memberCount := count, updatedAt := version);
      ok := PutSummary(next);
      LatestOfAppend(old(summaries), next);
      r := if ok then Ok(next) else Err(WriteFailed);
    }

    /** An edit that changes no one still repairs a stale count. */
    method Recount(c: Cohort, count: int, version: int64) returns (r: Result<Cohort, Error>)
      requires summaries != [] && Latest(summaries) == c && c.updatedAt < version
      modifies this`ops, this`summaries
      ensures old(summaries) <= summaries && |summaries| <= |old(summaries)| + 1
      ensures r.Ok? ==> Latest(summaries) == r.value
      ensures r.Ok? ==> r.value == if c.memberCount == count then c else c.(memberCount := count, updatedAt := version)
      ensures Reliable() ==> r.Ok?
    {
      if c.memberCount == count { return Ok(c); }
      var next := c.(memberCount := count, updatedAt := version);
      var ok := PutSummary(next);
      LatestOfAppend(old(summaries), next);
      r := if ok then Ok(next) else Err(WriteFailed);
    }

    /** The stored cohort can be edited, and the ids can be sent. */
    ghost predicate Sendable(ids: seq<string>, trim: string -> string)
      reads this
    {
      && Editable(members, summaries) && |members| <= RowLimit()
      && AllValid(ids, trim) && |Distinct(ids, trim)| <= MAX_MEMBERS
    }

    /** The same in so many words: a static cohort that shows and is short of the end of 64 bits, all of
        whose rows can be read, and ids of the right shape. */
    ghost predicate Ordinary(ids: seq<string>, trim: string -> string)
      reads this
    {
      && Shown(summaries).Some? && Shown(summaries).value.kind == StaticKind
      && Shown(summaries).value.updatedAt < MAX_INT64 && (forall m :: m in members ==> m.version < MAX_INT64)
      && |members| <= 600_000 && maxScan <= 0 && |Distinct(ids, trim)| <= 100_000
      && forall id :: id in ids ==> |trim(id)| <= 256 && forall c :: c in trim(id) ==> ' ' <= c && c != 0x7f as char
    }

    lemma OrdinaryIsSendable(ids: seq<string>, trim: string -> string)
      requires Ordinary(ids, trim)
      ensures Sendable(ids, trim)
    {
      forall i | 0 <= i < |ids|
        ensures ValidId(trim(ids[i]))
      {
        assert ids[i] in ids;
        ValidIdMeans(trim(ids[i]));
      }
    }

    /** The steps both edits start with: the cohort must be there and static, the ids sound, every
        stored row readable, and a new version to be had. */
    method Prepare(ids: seq<string>, trim: string -> string) returns (r: Result<Plan, Error>)
      modifies this`ops
      ensures r.Ok? ==> Ready(r.value, members, summaries) && r.value.ids == Distinct(ids, trim)
      ensures r.Ok? ==> |r.value.ids| <= MAX_MEMBERS
      ensures r.Ok? ==> NextVersion(r.value.version, members, r.value.cohort.updatedAt, clock(old(ops) + 2))
      ensures Shown(summaries).None? ==> r.Err?
      ensures Reliable() && old(Sendable(ids, trim)) ==> r.Ok?
    {
      hide Live, Latest, Distinct, AllValid;
      var c := GetStatic();
      if c.Err? { return Err(c.error); }
      var norm := NormalizeIds(ids, trim);
      if norm.Err? { return Err(BadIds(norm.error)); }
      DistinctIs(ids, trim);
      var live := ReadStatic();
      if live.Err? { return Err(live.error); }
      var now := Tick();
      var version := NextMemberVersion(c.value.updatedAt, now);
      if version.Err? { return Err(version.error); }
      r := Ok(Plan(c.value, norm.value, live.value, version.value));
    }

    /** The steps both edits end with. */
    method Finish(p: Plan, edits: seq<Edit>, removed: int64, count: int) returns (r: Result<(Cohort, nat), Error>)
      requires Ready(p, members, summaries) && UniformEdits(edits, removed)
      requires count == |Edited(Live(members), EditIds(edits), removed)|
      requires |Live(members)| <= MAX_MEMBERS ==> |Edited(Live(members), EditIds(edits), removed)| <= MAX_MEMBERS
      modifies this`ops, this`members, this`summaries
      ensures Kept()
      ensures Between(old(Live(members)), Live(members), Edited(old(Live(members)), EditIds(edits), removed))
      ensures r.Ok? ==> Live(members) == Edited(old(Live(members)), EditIds(edits), removed) && r.value.1 == |edits|
      ensures r.Ok? ==> Shown(summaries) == Some(r.value.0) && r.value.0.memberCount == |Live(members)|
      ensures |members| - |old(members)| <= |edits|
      ensures members == old(members) + Records(edits[..|members| - |old(members)|], p.version)
      ensures r.Ok? ==> r.value.0 == AfterEdit(p.cohort, |edits|, count, p.version)
      ensures Reliable() ==> r.Ok?
    {
      hide Live, Since, Latest, NextVersion, OnlyNewer, EditIds, Edited;
      NoEdits(Live(members), edits, removed);
      NothingNewer(members, summaries);
      assert p.cohort == Latest(summaries) by { ShownIsLatest(summaries); }
      var done;
      if edits == [] {
        assert |p.live| == |p.live.Keys|;
        done := Recount(p.cohort, |p.live|, p.version);
      } else {
        done := Commit(p.cohort, edits, removed, p.version, count);
      }
      WithinBound(old(Live(members)), Live(members), Edited(old(Live(members)), EditIds(edits), removed));
      r := if done.Ok? then Ok((done.value, |edits|)) else Err(done.error);
    }

    method ApplyAdd(p: Plan) returns (r: Result<(Cohort, nat), Error>)
      requires Ready(p, members, summaries)
      modifies this`ops, this`members, this`summaries
      ensures Kept()
      ensures old(Live(members)) <= Live(members) <= old(Live(members)) + SetOf(p.ids)
      ensures r.Ok? ==>
        Live(members) == old(Live(members)) + SetOf(p.ids) && r.value.1 == |SetOf(p.ids) - old(Live(members))|
      ensures r.Ok? ==> Shown(summaries) == Some(r.value.0) && r.value.0.memberCount == |Live(members)|
      ensures r.Ok? ==> r.value.0 == AfterEdit(p.cohort, r.value.1, |Live(members)|, p.version)
      ensures forall i :: |old(members)| <= i < |members| ==>
        members[i].version == members[i].addedAt == p.version && members[i].removed == 0
      ensures Reliable() && |old(Live(members)) + SetOf(p.ids)| <= MAX_MEMBERS ==> r.Ok?
    {
      hide Live, Since, Latest, NextVersion, OnlyNewer, EditIds, Edited, Fresh;
      var added := Fresh(p.ids, p.live.Keys, p.version);
      AddPlanned(p, Live(members), added);
      FreshAt(p.ids, p.live.Keys, p.version);
      NothingNewer(members, summaries);
      if |p.live| + |added| > MAX_MEMBERS { return Err(TooManyMembers); }
      r := Finish(p, added, 0, |p.live| + |added|);
    }

    method ApplyRemove(p: Plan) returns (r: Result<(Cohort, nat), Error>)
      requires Ready(p, members, summaries)
      modifies this`ops, this`members, this`summaries
      ensures Kept()
      ensures old(Live(members)) - SetOf(p.ids) <= Live(members) <= old(Live(members))
      ensures r.Ok? ==>
        Live(members) == old(Live(members)) - SetOf(p.ids) && r.value.1 == |SetOf(p.ids) * old(Live(members))|
      ensures r.Ok? ==> Shown(summaries) == Some(r.value.0) && r.value.0.memberCount == |Live(members)|
      ensures r.Ok? ==> r.value.0 == AfterEdit(p.cohort, r.value.1, |Live(members)|, p.version)
      ensures forall i :: |old(members)| <= i < |members| ==>
        && members[i].version == p.version && members[i].removed == 1
        && Since(old(members), members[i].id, members[i].addedAt)
      ensures Reliable() ==> r.Ok?
    {
      hide Live, Since, Latest, NextVersion, OnlyNewer, EditIds, Edited, Gone;
      var gone := Gone(p.ids, p.live);
      RemovePlanned(p, Live(members), gone);
      GoneAt(p.ids, p.live);
      r := Finish(p, gone, 1, |p.live| - |gone|);
    }

    /** AddMembers. MAIN RESULT: success makes the membership the union with the ids sent, and
        reports and stores exact counts; any failure leaves it between the old set and that. */
    method AddMembers(ids: seq<string>, trim: string -> string) returns (r: Result<(Cohort, nat), Error>)
      modifies this`ops, this`members, this`summaries
      ensures Kept()
      ensures old(Live(members)) <= Live(members) <= old(Live(members)) + SetOf(Distinct(ids, trim))
      ensures r.Ok? ==> Live(members) == old(Live(members)) + SetOf(Distinct(ids, trim))
      ensures r.Ok? ==> r.value.1 == |SetOf(Distinct(ids, trim)) - old(Live(members))|
      ensures r.Ok? ==> Shown(summaries) == Some(r.value.0) && r.value.0.memberCount == |Live(members)|
      ensures r.Ok? ==> old(Shown(summaries)).Some? && SameCohort(old(Shown(summaries)).value, r.value.0)
      ensures r.Ok? ==> Restamped(r.value.0, r.value.1)
      ensures r.Ok? && r.value.1 == 0 && old(Shown(summaries)).value.memberCount == |old(Live(members))| ==>
        Some(r.value.0) == old(Shown(summaries))
      ensures r.Ok? && r.value.1 > 0 ==>
        var at, was, now := r.value.0.updatedAt, old(Shown(summaries)).value.updatedAt, clock(old(ops) + 2);
        && at > was && (forall m :: m in old(members) ==> m.version < at)
        && (if now > was && forall m :: m in old(members) ==> m.version < now then at == now
            else at == was + 1 || exists m :: m in old(members) && at == m.version + 1)
      ensures old(Shown(summaries)).Some? ==> forall i :: |old(members)| <= i < |members| ==>
        && NextVersion(members[i].version, old(members), old(Shown(summaries)).value.updatedAt, clock(old(ops) + 2))
        && members[i].removed == 0 && members[i].addedAt == members[i].version
      ensures old(Shown(summaries)).None? ==> r.Err? && members == old(members) && summaries == old(summaries)
      ensures (&& Reliable() && old(Sendable(ids, trim))
               && |old(Live(members)) + SetOf(Distinct(ids, trim))| <= MAX_MEMBERS) ==> r.Ok?
      ensures (&& Reliable() && old(Ordinary(ids, trim))
               && |old(Live(members)) + SetOf(Distinct(ids, trim))| <= 100_000) ==> r.Ok?
    {
      hide Live, Since, Latest, NextVersion, OnlyNewer, Distinct, Ordinary, Sendable;
      if Ordinary(ids, trim) { OrdinaryIsSendable(ids, trim); }
      NothingNewer(members, summaries);
      var p := Prepare(ids, trim);
      if p.Err? { return Err(p.error); }
      r := ApplyAdd(p.value);
      NextVersionMeans(p.value.version, old(members), p.value.cohort.updatedAt, clock(old(ops) + 2));
    }

    /** RemoveMembers. MAIN RESULT: the same for the difference. */
    method RemoveMembers(ids: seq<string>, trim: string -> string) returns (r: Result<(Cohort, nat), Error>)
      modifies this`ops, this`members, this`summaries
      ensures Kept()
      ensures old(Live(members)) - SetOf(Distinct(ids, trim)) <= Live(members) <= old(Live(members))
      ensures r.Ok? ==> Live(members) == old(Live(members)) - SetOf(Distinct(ids, trim))
      ensures r.Ok? ==> r.value.1 == |SetOf(Distinct(ids, trim)) * old(Live(members))|
      ensures r.Ok? ==> Shown(summaries) == Some(r.value.0) && r.value.0.memberCount == |Live(members)|
      ensures r.Ok? ==> old(Shown(summaries)).Some? && SameCohort(old(Shown(summaries)).value, r.value.0)
      ensures r.Ok? ==> Restamped(r.value.0, r.value.1)
      ensures r.Ok? && r.value.1 == 0 && old(Shown(summaries)).value.memberCount == |old(Live(members))| ==>
        Some(r.value.0) == old(Shown(summaries))
      ensures r.Ok? && r.value.1 > 0 ==>
        var at, was, now := r.value.0.updatedAt, old(Shown(summaries)).value.updatedAt, clock(old(ops) + 2);
        && at > was && (forall m :: m in old(members) ==> m.version < at)
        && (if now > was && forall m :: m in old(members) ==> m.version < now then at == now
            else at == was + 1 || exists m :: m in old(members) && at == m.version + 1)
      ensures old(Shown(summaries)).Some? ==> forall i :: |old(members)| <= i < |members| ==>
        && NextVersion(members[i].version, old(members), old(Shown(summaries)).value.updatedAt, clock(old(ops) + 2))
        && members[i].removed == 1 && Since(old(members), members[i].id, members[i].addedAt)
      ensures old(Shown(summaries)).None? ==> r.Err? && members == old(members) && summaries == old(summaries)
      ensures Reliable() && old(Sendable(ids, trim)) ==> r.Ok?
      ensures Reliable() && old(Ordinary(ids, trim)) ==> r.Ok?
    {
      hide Live, Since, Latest, NextVersion, OnlyNewer, Distinct, Ordinary, Sendable;
      if Ordinary(ids, trim) { OrdinaryIsSendable(ids, trim); }
      NothingNewer(members, summaries);
      var p := Prepare(ids, trim);
      if p.Err? { return Err(p.error); }
      r := ApplyRemove(p.value);
      NextVersionMeans(p.value.version, old(members), p.value.cohort.updatedAt, clock(old(ops) + 2));
    }

    /** A failed addition is repaired by sending it again: whatever the first call left, a second
        that succeeds ends with the union and its exact count. */
    method AddTwice(ids: seq<string>, trim: string -> string)
        returns (first: Result<(Cohort, nat), Error>, r: Result<(Cohort, nat), Error>)
      modifies this`ops, this`members, this`summaries
      ensures r.Ok? ==> Live(members) == old(Live(members)) + SetOf(Distinct(ids, trim))
      ensures r.Ok? ==> Shown(summaries).Some? && Shown(summaries).value.memberCount == |Live(members)|
    {
      first := AddMembers(ids, trim);
      AddedAgain(old(Live(members)), Live(members), SetOf(Distinct(ids, trim)));
      r := AddMembers(ids, trim);
    }

    /** The same for a removal: a second one that succeeds ends with the difference. */
    method RemoveTwice(ids: seq<string>, trim: string -> string)
        returns (first: Result<(Cohort, nat), Error>, r: Result<(Cohort, nat), Error>)
      modifies this`ops, this`members, this`summaries
      ensures r.Ok? ==> Live(members) == old(Live(members)) - SetOf(Distinct(ids, trim))
      ensures r.Ok? ==> Shown(summaries).Some? && Shown(summaries).value.memberCount == |Live(members)|
    {
      first := RemoveMembers(ids, trim);
      RemovedAgain(old(Live(members)), Live(members), SetOf(Distinct(ids, trim)));
      r := RemoveMembers(ids, trim);
    }

    /** CreateStatic, under an id nobody has used: members first, then the row that makes them
        visible. Whatever fails, a visible cohort has its whole list and its exact count. */
    method CreateStatic(name: string, description: string, ids: seq<string>, trim: string -> string)
        returns (r: Result<Cohort, Error>)
      requires members == [] && summaries == [] && trim("") == ""
      modifies this`ops, this`members, this`summaries
      ensures r.Ok? ==> Shown(summaries) == Some(r.value)
      ensures forall i :: 0 <= i < |members| ==> members[i].version == members[i].addedAt == clock(old(ops))
      ensures Shown(summaries).Some? ==>
        Live(members) == SetOf(Distinct(ids, trim)) && |Live(members)| <= MAX_MEMBERS
        && Shown(summaries).value ==
           Cohort(name, description, StaticKind, |Live(members)|, clock(old(ops)), clock(old(ops)))
      ensures Reliable() && trim(name) != "" && AllValid(ids, trim) && |Distinct(ids, trim)| <= MAX_MEMBERS ==> r.Ok?
    {
      hide Live, Distinct, AllValid;
      if trim(name) == "" { return Err(BadName); }
      var norm := NormalizeIds(ids, trim);
      if norm.Err? { return Err(BadIds(norm.error)); }
      DistinctIs(ids, trim);
      var now := Tick();
      r := StoreList(name, description, norm.value, now);
    }

    /** The writes of a creation. */
    method StoreList(name: string, description: string, ids: seq<string>, now: int64) returns (r: Result<Cohort, Error>)
      requires members == [] && summaries == [] && NoRepeats(ids) && "" !in ids && name != ""
      modifies this`ops, this`members, this`summaries
      ensures r.Ok? ==> Shown(summaries) == Some(r.value)
      ensures forall i :: 0 <= i < |members| ==> members[i].version == members[i].addedAt == now
      ensures Shown(summaries).Some? ==>
        Live(members) == SetOf(ids) && |Live(members)| == |ids|
        && Shown(summaries).value == Cohort(name, description, StaticKind, |ids|, now, now)
      ensures Reliable() ==> r.Ok?
    {
      hide Live, Fresh, Records;
      var edits := Fresh(ids, {}, now);
      CreatedRows(ids, now);
      var ok;
      ghost var chunks;
      ok, chunks := InsertMembers(edits, now);
      if !ok { return Err(WriteFailed); }
      CreatedList(ids, now);
      assert edits[..|edits|] == edits;
      assert members == [] + Records(edits, now);
      var c := Cohort(name, description, StaticKind, |ids|, now, now);
      ok := PutSummary(c);
      LatestOfAppend([], c);
      assert [] + [c] == [c];
      r := if ok then Ok(c) else Err(WriteFailed);
    }

    // ---------------------------------------------------------------- summary edits

    /** A new summary version: the clock, or one past the version it replaces. */
    method NextUpdate(c: Cohort) returns (at: int64)
      modifies this`ops
      ensures ops == old(ops) + 1 && at == Later(c.updatedAt, clock(old(ops)))
    {
      at := Tick();
      if at <= c.updatedAt { at := if c.updatedAt == MAX_INT64 then MIN_INT64 else c.updatedAt + 1; }
    }

    /** Delete: a tombstone above the version it hides. It hides the cohort exactly when a higher
        64-bit version exists. */
    method Delete() returns (r: Result<(), Error>)
      modifies this`ops, this`summaries
      ensures old(summaries) <= summaries && |summaries| <= |old(summaries)| + 1
      ensures r.Ok? && old(Shown(summaries)).Some? ==>
        (Shown(summaries).None? <==> old(Shown(summaries)).value.updatedAt < MAX_INT64)
      ensures old(Shown(summaries)).None? ==> summaries == old(summaries)
      ensures forall i :: |old(summaries)| <= i < |summaries| ==>
        summaries[i].name == "" && summaries[i].createdAt == old(Shown(summaries)).value.createdAt
        && summaries[i].updatedAt == Later(old(Shown(summaries)).value.updatedAt, clock(old(ops) + 1))
      ensures Reliable() ==> r.Ok?
    {
      var c := Get();
      if c.Err? { return Err(c.error); }
      if c.value.None? { return Ok(()); }
      var at := NextUpdate(c.value.value);
      var tombstone := Cohort("", "", UnreadableRule, 0, c.value.value.createdAt, at);
      var ok := PutSummary(tombstone);
      LatestOfAppend(old(summaries), tombstone);
      r := if ok then Ok(()) else Err(WriteFailed);
    }
  }

  /** The summary after an edit: untouched if nothing changed and its count was right. */
  function AfterEdit(c: Cohort, changed: nat, count: int, version: int64): Cohort {
    if changed == 0 && c.memberCount == count then c else c.(memberCount := count, updatedAt := version)
  }

  datatype Plan = Plan(cohort: Cohort, ids: seq<string>, live: map<string, int64>, version: int64)

  /** A plan made of what is stored. */
  ghost predicate Ready(p: Plan, members: seq<MemberRow>, summaries: seq<Cohort>) {
    && Shown(summaries) == Some(p.cohort) && p.cohort.updatedAt < p.version && Above(members, p.version)
    && p.live.Keys == Live(members) && (forall id :: id in p.live ==> Since(members, id, p.live[id]))
    && NoRepeats(p.ids) && "" !in p.ids
  }

  /** A live member's row has this time of addition. */
  ghost predicate Since(rows: seq<MemberRow>, id: string, at: int64) {
    exists r :: Winning(rows, r) && r.id == id && r.removed == 0 && r.addedAt == at
  }

  /** The cohort is there, static, and not at the end of its versions. */
  ghost predicate Editable(members: seq<MemberRow>, summaries: seq<Cohort>) {
    && Shown(summaries).Some? && Shown(summaries).value.kind == StaticKind
    && Shown(summaries).value.updatedAt < MAX_INT64 && Above(members, MAX_INT64)
  }

  lemma AddedAgain(a: set<string>, m: set<string>, ids: set<string>)
    requires a <= m <= a + ids
    ensures m + ids == a + ids
  {
  }

  lemma RemovedAgain(a: set<string>, m: set<string>, ids: set<string>)
    requires a - ids <= m <= a
    ensures m - ids == a - ids
  {
  }

  lemma {:induction false} DistinctCount(ids: seq<string>)
    requires NoRepeats(ids)
    ensures |SetOf(ids)| == |ids|
  {
    if ids != [] {
      LastId(ids);
      DistinctCount(ids[..|ids| - 1]);
    }
  }

  /** The rows of a new list, as far as they landed. */
  lemma CreatedRows(ids: seq<string>, now: int64)
    ensures forall n, i {:trigger Records(Fresh(ids, {}, now)[..n], now)[i]} :: 0 <= i < n <= |Fresh(ids, {}, now)| ==>
      var m := Records(Fresh(ids, {}, now)[..n], now)[i];
      m.version == m.addedAt == now
  {
    FreshAt(ids, {}, now);
    forall i | 0 <= i < |Fresh(ids, {}, now)|
      ensures Fresh(ids, {}, now)[i].addedAt == now
    {
      assert Fresh(ids, {}, now)[i] in Fresh(ids, {}, now);
    }
  }

  lemma CreatedList(ids: seq<string>, now: int64)
    requires NoRepeats(ids) && "" !in ids
    ensures Live([] + Records(Fresh(ids, {}, now), now)) == SetOf(ids) && |SetOf(ids)| == |ids|
  {
    FreshIs(ids, {}, now);
    DistinctCount(ids);
    BatchDecides([], Fresh(ids, {}, now), now, 0);
    assert Live([]) == {};
  }

  lemma AddPlanned(p: Plan, live: set<string>, added: seq<Edit>)
    requires p.live.Keys == live && NoRepeats(p.ids) && "" !in p.ids && added == Fresh(p.ids, p.live.Keys, p.version)
    ensures UniformEdits(added, 0) && |added| == |SetOf(p.ids) - live|
    ensures Edited(live, EditIds(added), 0) == live + SetOf(p.ids) && |live + SetOf(p.ids)| == |p.live| + |added|
  {
    FreshIs(p.ids, live, p.version);
    FreshCount(p.ids, live, p.version);
    assert live + SetOf(p.ids) == live + (SetOf(p.ids) - live);
    assert |p.live| == |p.live.Keys|;
  }

  lemma RemovePlanned(p: Plan, live: set<string>, gone: seq<Edit>)
    requires p.live.Keys == live && NoRepeats(p.ids) && "" !in p.ids && gone == Gone(p.ids, p.live)
    ensures UniformEdits(gone, 1) && |gone| == |SetOf(p.ids) * live|
    ensures Edited(live, EditIds(gone), 1) == live - SetOf(p.ids) && |live - SetOf(p.ids)| == |p.live| - |gone|
    ensures |live - SetOf(p.ids)| <= |live|
  {
    GoneIs(p.ids, p.live);
    GoneCount(p.ids, p.live);
    assert live == (live - SetOf(p.ids)) + (SetOf(p.ids) * live);
    assert |p.live| == |p.live.Keys|;
  }

  lemma NothingNewer(rows: seq<MemberRow>, summaries: seq<Cohort>)
    ensures OnlyNewer(rows, rows, summaries)
  {
  }

  lemma NoEdits(live: set<string>, edits: seq<Edit>, removed: int64)
    ensures edits == [] ==> Edited(live, EditIds(edits), removed) == live
  {
  }

  lemma ShownIsLatest(summaries: seq<Cohort>)
    ensures Shown(summaries).Some? ==> summaries != [] && Shown(summaries) == Some(Latest(summaries))
  {
  }

  lemma WithinBound(a: set<string>, m: set<string>, b: set<string>)
    requires Between(a, m, b)
    ensures |m| <= |a| || |m| <= |b|
  {
    if a <= m <= b { assert b == m + (b - m); } else { assert a == m + (a - m); }
  }

  /** The membership an edit is for. */
  function Edited(live: set<string>, ids: set<string>, removed: int64): set<string> {
    if removed == 0 then live + ids else live - ids
  }
}
