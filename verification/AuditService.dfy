/** The audit service over whole runs (internal/audit/audit.go: loadStateLocked, Record;
    checkpoint.go; verification_reader.go): one writer whose inserts may fail ambiguously,
    restarts, checkpoints, and verifications that page while rows are appended. */
module AuditService {
  import opened Common
  import opened AuditHash
  import opened AuditVerify

  /** What the service is built with. `blank` is strings.TrimSpace(v) == "". */
  datatype Config = Config(mac: Mac, keys: Option<Keyring>, every: int64, blank: Text -> bool)

  datatype Db = Db(rows: seq<Event>, checkpoints: seq<Checkpoint>)

  /** The cached chain head. */
  datatype Head = Head(loaded: bool, lastSeq: int64, lastHash: Text)

  datatype State = State(db: Db, head: Head)

  /** The bytes of an ASCII text. */
  function Ascii(s: string): seq<byte> {
    seq(|s|, i requires 0 <= i < |s| => if s[i] < 128 as char then s[i] as int else 63)
  }

  const DEFAULT: Text := Ascii("default")
  const USER: Text := Ascii("user")
  const SUCCESS: Text := Ascii("success")
  const NO_METADATA: Text := Ascii("{}")

  /** What the outside decides during one checkpoint write. */
  datatype CpChoice = CpChoice(loadOk: bool, insert: WriteOutcome, id: Text, now: int64)

  /** What the outside decides during one Record. */
  datatype Choice = Choice(loadOk: bool, insert: WriteOutcome, id: Text, now: int64, cp: CpChoice)

  // ---------------------------------------------------------------- specification functions

  function OrElse(v: Text, other: Text): Text { if v == [] then other else v }

  function Filled(ev: Event, choice: Choice): Event {
    ev.(auditId := OrElse(ev.auditId, choice.id),
        timestamp := if ev.timestamp == 0 then choice.now else ev.timestamp,
        tenantId := OrElse(ev.tenantId, DEFAULT), siteId := OrElse(ev.siteId, DEFAULT),
        actorType := OrElse(ev.actorType, USER), result := OrElse(ev.result, SUCCESS),
        metadata := OrElse(ev.metadata, NO_METADATA))
  }

  function SignerKey(keys: Option<Keyring>): seq<byte> { if keys.Some? then keys.value.signerKey else [] }

  /** Signed 64-bit increment. */
  function Increment(x: int64): int64 { if x == MAX_INT64 then -MAX_INT64 - 1 else x + 1 }

  /** The row Record would append after the given head. */
  function Signed(cfg: Config, head: Head, ev: Event, choice: Choice): Event {
    var linked := Filled(ev, choice).(seqNo := Increment(head.lastSeq), prevHash := head.lastHash,
      keyId := if cfg.keys.Some? && cfg.keys.value.keyed then cfg.keys.value.signerId else ev.keyId);
    linked.(hash := HashWith(cfg.mac, SignerKey(cfg.keys), linked))
  }

  /** Some row with the highest number: ORDER BY seq DESC LIMIT 1. */
  function Top(rows: seq<Event>): (r: Event)
    requires rows != []
    ensures r in rows && forall x :: x in rows ==> x.seqNo <= r.seqNo
  {
    var last := rows[|rows| - 1];
    if |rows| == 1 then last
    else
      var rest := Top(rows[..|rows| - 1]);
      assert rows == rows[..|rows| - 1] + [last];
      if rest.seqNo > last.seqNo then rest else last
  }

  /** The newest checkpoint: by number, then by time. */
  function Latest(cps: seq<Checkpoint>): (r: Option<Checkpoint>)
    ensures r.None? <==> cps == []
    ensures r.Some? ==> r.value in cps && forall c :: c in cps ==>
      c.seqNo < r.value.seqNo || (c.seqNo == r.value.seqNo && c.createdAt <= r.value.createdAt)
  {
    if cps == [] then None
    else
      var last, rest := cps[|cps| - 1], Latest(cps[..|cps| - 1]);
      assert cps == cps[..|cps| - 1] + [last];
      if rest.Some? && (rest.value.seqNo > last.seqNo
                        || (rest.value.seqNo == last.seqNo && rest.value.createdAt > last.createdAt))
      then rest else Some(last)
  }

  /** loadStateLocked: an empty table leaves the cached values as they are. */
  function Load(db: Db, head: Head): Head {
    if db.rows == [] then head.(loaded := true)
    else Head(true, Top(db.rows).seqNo, Top(db.rows).hash)
  }

  function CheckpointMessage(seqNo: int64, headHash: Text): seq<byte> {
    PREAMBLE + (FormatInt(seqNo) + [10] + headHash)
  }

  function CheckpointDigest(cfg: Config, seqNo: int64, headHash: Text): Text {
    cfg.mac(SignerKey(cfg.keys), CheckpointMessage(seqNo, headHash))
  }

  predicate NoLineFeed(a: seq<byte>) { forall i :: 0 <= i < |a| ==> a[i] != 10 }

  lemma LineEnds(a: seq<byte>, b: seq<byte>, x: seq<byte>, y: seq<byte>)
    requires NoLineFeed(b) && a + [10] + x == b + [10] + y
    ensures |a| >= |b|
  {
    var s := a + [10] + x;
    assert s[|a|] == 10;
    assert forall i :: 0 <= i < |b| ==> s[i] == b[i];
  }

  lemma FirstLine(a: seq<byte>, b: seq<byte>, x: seq<byte>, y: seq<byte>)
    requires NoLineFeed(a) && NoLineFeed(b) && a + [10] + x == b + [10] + y
    ensures a == b && x == y
  {
    LineEnds(a, b, x, y);
    LineEnds(b, a, y, x);
    var s, t := a + [10] + x, b + [10] + y;
    assert s[..|a|] == a && t[..|b|] == b && s[|a| + 1..] == x && t[|b| + 1..] == y;
  }

  lemma SameBack(p: seq<byte>, a: seq<byte>, b: seq<byte>)
    requires p + a == p + b
    ensures a == b
  {
    assert (p + a)[|p|..] == a && (p + b)[|p|..] == b;
  }

  /** The number has no line feed in it, so the message determines number and hash. */
  lemma CheckpointMessageInjective(m: int64, h: Text, n: int64, g: Text)
    requires CheckpointMessage(m, h) == CheckpointMessage(n, g)
    ensures m == n && h == g
  {
    SameBack(PREAMBLE, FormatInt(m) + [10] + h, FormatInt(n) + [10] + g);
    FirstLine(FormatInt(m), FormatInt(n), h, g);
    FormatIntInjective(m, n);
  }

  /** A digest kept outside the database that a checkpoint row reproduces pins number and head
      hash, also when the signer has changed: the operator's copy was made of the same two, or
      their messages collide. */
  lemma DigestPinsHead(cfg: Config, m: int64, h: Text, cfg': Config, n: int64, g: Text)
    requires cfg'.mac == cfg.mac && CheckpointDigest(cfg, m, h) == CheckpointDigest(cfg', n, g)
    ensures (m == n && h == g)
            || Collision(cfg.mac, SignerKey(cfg.keys), CheckpointMessage(m, h),
                         SignerKey(cfg'.keys), CheckpointMessage(n, g))
  {
    if CheckpointMessage(m, h) == CheckpointMessage(n, g) { CheckpointMessageInjective(m, h, n, g); }
  }

  const PREAMBLE := Ascii("observe-audit-checkpoint\n")

  function CheckpointOf(cfg: Config, head: Head, choice: CpChoice): Checkpoint {
    Checkpoint(choice.id, head.lastSeq, head.lastHash, CheckpointDigest(cfg, head.lastSeq, head.lastHash),
               if cfg.keys.Some? then cfg.keys.value.signerId else [], choice.now)
  }

  /** checkpointLocked: the new state, and the checkpoint if the caller gets one. */
  function CheckpointStep(cfg: Config, st: State, choice: CpChoice): (State, Option<Checkpoint>) {
    if !st.head.loaded && !choice.loadOk then (st, None)
    else
      var head := if st.head.loaded then st.head else Load(st.db, st.head);
      if head.lastSeq == 0 then (State(st.db, head), None)
      else
        var cp := CheckpointOf(cfg, head, choice);
        var db := if choice.insert.Landed() then st.db.(checkpoints := st.db.checkpoints + [cp]) else st.db;
        (State(db, head), if choice.insert.Reported() then Some(cp) else None)
  }

  /** Record: the new state, and whether the caller sees success. */
  function RecordStep(cfg: Config, st: State, ev: Event, choice: Choice): (State, bool)
    requires cfg.every > 0
  {
    if cfg.blank(ev.action) then (st, false)
    else if !st.head.loaded && !choice.loadOk then (st, false)
    else
      var head := if st.head.loaded then st.head else Load(st.db, st.head);
      Append(cfg, st.db, head, Signed(cfg, head, ev, choice), choice)
  }

  /** The insert of a signed row after a loaded head, with the checkpoint it may trigger. After
      a reported failure the head is dropped: the row may or may not be there. */
  function Append(cfg: Config, db: Db, head: Head, row: Event, choice: Choice): (State, bool)
    requires cfg.every > 0
  {
    var stored := if choice.insert.Landed() then db.(rows := db.rows + [row]) else db;
    if !choice.insert.Reported() then (State(stored, head.(loaded := false)), false)
    else
      var next := State(stored, Head(true, row.seqNo, row.hash));
      (if TruncatedRemainderIsZero(row.seqNo, cfg.every) then CheckpointStep(cfg, next, choice.cp).0 else next, true)
  }

  /** lastSeq % CheckpointEvery == 0, whose truth does not depend on how % rounds. */
  predicate TruncatedRemainderIsZero(x: int64, every: int64)
    requires every > 0
  {
    var (a: int, b: int) := (x, every);
    a % b == 0
  }

  // ---------------------------------------------------------------- what the steps amount to

  /** The row follows this head and says what its caller said, its gaps filled in, hashed under the
      signer's key. */
  ghost predicate Follows(cfg: Config, lastSeq: int64, lastHash: Text, ev: Event, choice: Choice, row: Event) {
    && row.prevHash == lastHash
    && row.seqNo == (if lastSeq < MAX_INT64 then lastSeq + 1 else -0x8000_0000_0000_0000)
    && row.actor == ev.actor && row.action == ev.action && row.target == ev.target
    && row.sourceIp == ev.sourceIp && row.userAgent == ev.userAgent
    && row.auditId == (if ev.auditId == [] then choice.id else ev.auditId)
    && row.timestamp == (if ev.timestamp == 0 then choice.now else ev.timestamp)
    && row.tenantId == (if ev.tenantId == [] then Ascii("default") else ev.tenantId)
    && row.siteId == (if ev.siteId == [] then Ascii("default") else ev.siteId)
    && row.actorType == (if ev.actorType == [] then Ascii("user") else ev.actorType)
    && row.result == (if ev.result == [] then Ascii("success") else ev.result)
    && row.metadata == (if ev.metadata == [] then Ascii("{}") else ev.metadata)
    && row.keyId == (if cfg.keys.Some? && cfg.keys.value.keyed then cfg.keys.value.signerId else ev.keyId)
    && row.hash == cfg.mac(if cfg.keys.Some? then cfg.keys.value.signerKey else [], Message(row))
  }

  /** A head just read: the number and hash of a row no other row is above, or what was cached when
      there is no row. */
  ghost predicate ReadBack(rows: seq<Event>, cached: Head, lastSeq: int64, lastHash: Text) {
    if rows == [] then lastSeq == cached.lastSeq && lastHash == cached.lastHash
    else exists top :: top in rows && (forall x :: x in rows ==> x.seqNo <= top.seqNo)
                       && lastSeq == top.seqNo && lastHash == top.hash
  }

  /** The head a write goes by: the cached one, or the one it reads back. */
  ghost predicate HeadIs(st: State, lastSeq: int64, lastHash: Text) {
    if st.head.loaded then lastSeq == st.head.lastSeq && lastHash == st.head.lastHash
    else ReadBack(st.db.rows, st.head, lastSeq, lastHash)
  }

  /** The checkpoint names the head and carries a digest of it under the signer's key. */
  ghost predicate Anchors(cfg: Config, cp: Checkpoint, lastSeq: int64, lastHash: Text, choice: CpChoice) {
    && cp.seqNo == lastSeq && cp.headHash == lastHash && cp.id == choice.id && cp.createdAt == choice.now
    && cp.keyId == (if cfg.keys.Some? then cfg.keys.value.signerId else [])
    && cp.digest == cfg.mac(if cfg.keys.Some? then cfg.keys.value.signerKey else [],
                            Ascii("observe-audit-checkpoint\n") + FormatInt(lastSeq) + Ascii("\n") + lastHash)
  }

  /** What a checkpoint call leaves: one more checkpoint of the head, if its insert landed. */
  ghost predicate Anchored(cfg: Config, a: State, b: State, choice: CpChoice, cp: Option<Checkpoint>) {
    && b.db.rows == a.db.rows
    && (if !a.head.loaded && !choice.loadOk then b == a && cp.None?
        else
          && b.head.loaded && HeadIs(a, b.head.lastSeq, b.head.lastHash)
          && (cp.Some? <==> b.head.lastSeq != 0 && choice.insert == Applied)
          && (if b.head.lastSeq == 0 || choice.insert == FailedUnwritten then b.db.checkpoints == a.db.checkpoints
              else exists made :: Anchors(cfg, made, b.head.lastSeq, b.head.lastHash, choice)
                                  && b.db.checkpoints == a.db.checkpoints + [made]
                                  && (cp.Some? ==> cp == Some(made))))
  }

  lemma CheckpointStepAnchors(cfg: Config, st: State, choice: CpChoice)
    ensures var (next, cp) := CheckpointStep(cfg, st, choice); Anchored(cfg, st, next, choice, cp)
  {
    if st.head.loaded || choice.loadOk {
      var head := if st.head.loaded then st.head else Load(st.db, st.head);
      var made := CheckpointOf(cfg, head, choice);
      DigestText(cfg, head.lastSeq, head.lastHash);
      assert Anchors(cfg, made, head.lastSeq, head.lastHash, choice);
    }
  }

  lemma DigestText(cfg: Config, seqNo: int64, headHash: Text)
    ensures CheckpointMessage(seqNo, headHash) ==
            Ascii("observe-audit-checkpoint\n") + FormatInt(seqNo) + Ascii("\n") + headHash
  {
    assert Ascii("\n") == [10];
  }

  /** What a Record call leaves: one more row after the head if its insert landed, the new head if
      that was reported and no head if not, and a checkpoint when the row's number is due. */
  ghost predicate Recorded(cfg: Config, a: State, b: State, ev: Event, choice: Choice, ok: bool)
    requires cfg.every > 0
  {
    if cfg.blank(ev.action) || (!a.head.loaded && !choice.loadOk) then b == a && !ok
    else
      && (ok <==> choice.insert == Applied)
      && (choice.insert == FailedUnwritten ==> b.db == a.db)
      && (choice.insert != FailedUnwritten ==>
            && |b.db.rows| == |a.db.rows| + 1 && b.db.rows[..|a.db.rows|] == a.db.rows
            && exists seqNo: int64, hash: Text ::
                 HeadIs(a, seqNo, hash) && Follows(cfg, seqNo, hash, ev, choice, b.db.rows[|a.db.rows|]))
      && (!ok ==> !b.head.loaded && b.db.checkpoints == a.db.checkpoints)
      && (ok ==> b.head == Head(true, b.db.rows[|a.db.rows|].seqNo, b.db.rows[|a.db.rows|].hash)
                 && AnchoredIfDue(cfg, a.db.checkpoints, b, choice.cp))
  }

  /** Every so many rows, counted by their numbers, the new head gets a checkpoint, if its insert
      lands. */
  ghost predicate AnchoredIfDue(cfg: Config, before: seq<Checkpoint>, b: State, choice: CpChoice)
    requires cfg.every > 0
  {
    var seqNo: int, every: int := b.head.lastSeq, cfg.every;
    if seqNo % every != 0 || seqNo == 0 || choice.insert == FailedUnwritten then b.db.checkpoints == before
    else exists made :: Anchors(cfg, made, b.head.lastSeq, b.head.lastHash, choice)
                        && b.db.checkpoints == before + [made]
  }

  lemma SignedFollows(cfg: Config, head: Head, ev: Event, choice: Choice)
    ensures Follows(cfg, head.lastSeq, head.lastHash, ev, choice, Signed(cfg, head, ev, choice))
  {
    var row := Signed(cfg, head, ev, choice);
    assert forall h: Text :: Fields(row.(hash := h)) == Fields(row);
  }

  lemma AppendRecords(cfg: Config, db: Db, head: Head, row: Event, choice: Choice)
    requires cfg.every > 0
    ensures var (next, ok) := Append(cfg, db, head, row, choice);
            && (ok <==> choice.insert == Applied)
            && next.db.rows == (if choice.insert == FailedUnwritten then db.rows else db.rows + [row])
            && (!ok ==> !next.head.loaded && next.db.checkpoints == db.checkpoints)
            && (ok ==> next.head == Head(true, row.seqNo, row.hash)
                       && AnchoredIfDue(cfg, db.checkpoints, next, choice.cp))
  {
    hide Anchors;
    CheckpointStepAnchors(cfg, State(db.(rows := db.rows + [row]), Head(true, row.seqNo, row.hash)), choice.cp);
  }

  lemma RecordStepRecords(cfg: Config, st: State, ev: Event, choice: Choice)
    requires cfg.every > 0
    ensures var (next, ok) := RecordStep(cfg, st, ev, choice); Recorded(cfg, st, next, ev, choice, ok)
  {
    hide Follows, Signed, Append, AnchoredIfDue;
    if !cfg.blank(ev.action) && (st.head.loaded || choice.loadOk) {
      var head := if st.head.loaded then st.head else Load(st.db, st.head);
      var row := Signed(cfg, head, ev, choice);
      SignedFollows(cfg, head, ev, choice);
      AppendRecords(cfg, st.db, head, row, choice);
      assert HeadIs(st, head.lastSeq, head.lastHash);
      assert (st.db.rows + [row])[..|st.db.rows|] == st.db.rows;
    }
  }

  // ---------------------------------------------------------------- the service

  class Service {
    const cfg: Config
    var rows: seq<Event>               // table audit_events
    var checkpoints: seq<Checkpoint>   // table audit_checkpoints
    var lastHash: Text
    var lastSeq: int64
    var loaded: bool

    ghost function Here(): State
      reads this
    {
      State(Db(rows, checkpoints), Head(loaded, lastSeq, lastHash))
    }

    constructor (cfg: Config, rows: seq<Event>, checkpoints: seq<Checkpoint>)
      ensures Here() == State(Db(rows, checkpoints), Head(false, 0, [])) && this.cfg == cfg
    {
      this.cfg, this.rows, this.checkpoints := cfg, rows, checkpoints;
      lastHash, lastSeq, loaded := [], 0, false;
    }

    method LoadState(loadOk: bool) returns (ok: bool)
      modifies this`lastHash, this`lastSeq, this`loaded
      ensures ok == loadOk
      ensures Here() == if ok then State(old(Here()).db, Load(old(Here()).db, old(Here()).head)) else old(Here())
      ensures ok ==> loaded && ReadBack(rows, old(Here()).head, lastSeq, lastHash)
    {
      if !loadOk { return false; }
      if |rows| > 0 {
        var top := Top(rows);
        lastSeq, lastHash := top.seqNo, top.hash;
      }
      loaded := true;
      ok := true;
    }

    method Checkpoint(choice: CpChoice) returns (cp: Option<Checkpoint>)
      modifies this
      ensures (Here(), cp) == CheckpointStep(cfg, old(Here()), choice)
      ensures Anchored(cfg, old(Here()), Here(), choice, cp)
    {
      hide Anchored;
      CheckpointStepAnchors(cfg, Here(), choice);
      if !loaded {
        var ok := LoadState(choice.loadOk);
        if !ok { return None; }
      }
      if lastSeq == 0 { return None; }
      var made := CheckpointOf(cfg, Head(loaded, lastSeq, lastHash), choice);
      if choice.insert.Landed() { checkpoints := checkpoints + [made]; }
      cp := if choice.insert.Reported() then Some(made) else None;
    }

    method Record(ev: Event, choice: Choice) returns (ok: bool)
      requires cfg.every > 0
      modifies this
      ensures (Here(), ok) == RecordStep(cfg, old(Here()), ev, choice)
      ensures Recorded(cfg, old(Here()), Here(), ev, choice, ok)
    {
      hide Recorded, Anchored, Signed;
      RecordStepRecords(cfg, Here(), ev, choice);
      if cfg.blank(ev.action) { return false; }
      if !loaded {
        ok := LoadState(choice.loadOk);
        if !ok { return false; }
      }
      var row := Signed(cfg, Head(loaded, lastSeq, lastHash), ev, choice);
      if choice.insert.Landed() { rows := rows + [row]; }
      if !choice.insert.Reported() {
        loaded := false;
        return false;
      }
      lastSeq, lastHash := row.seqNo, row.hash;
      if TruncatedRemainderIsZero(lastSeq, cfg.every) {
        var cp := Checkpoint(choice.cp);
      }
      ok := true;
    }
  }
}
