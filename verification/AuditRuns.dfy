/** Safety of the audit trail over every run: any interleaving of records, failed and ambiguous
    inserts, restarts, checkpoints, and verifications that read page by page in between. */
module AuditRuns {
  import opened Common
  import opened AuditHash
  import opened ChainWalk
  import opened PagedChain
  import opened AuditVerify
  import opened AuditService

  /** A verification under way: what its locked snapshot read, and where its walk stands. */
  datatype Verifier =
    | Walking(through: int, cp: Option<Anchor>, w: Walk)
    | Finished(cp: Option<Anchor>, report: Report)

  datatype Sys = Sys(st: State, verifiers: map<nat, Verifier>)

  datatype Action =
    | DoRecord(ev: Event, choice: Choice)
    | DoCheckpoint(cpChoice: CpChoice)
    | Restart
    | StartVerify(id: nat)
    | VerifyTurn(id: nat)

  /** verificationSnapshot, under the writer's lock. */
  function Snapshot(cfg: Config, db: Db): Verifier {
    var link := Digester(cfg.mac, cfg.keys);
    var cp := AnchorOf(Latest(db.checkpoints));
    if exists ev :: ev in db.rows && ev.seqNo <= 0 then Finished(None, BrokenReport(0, 0, 0, OutsideDomain))
    else Walking(PagedChain.Head(link, db.rows), cp, START)
  }

  /** One turn of the verification loop: a page query without the lock, or the conclusion. */
  function Turn(cfg: Config, db: Db, v: Verifier): Verifier {
    match v
    case Finished(_, _) => v
    case Walking(through, cp, w) =>
      if w.last >= through then Finished(cp, Conclude(cp, w, through))
      else
        var link := Digester(cfg.mac, cfg.keys);
        match WalkPage(cp, w, Links(link, Fetch(link, db.rows, w.last, through)))
        case Going(w') => Walking(through, cp, w')
        case Broken(count, at, why) => Finished(cp, BrokenReport(through, count, at, why))
  }

  function Next(cfg: Config, s: Sys, a: Action): Sys
    requires cfg.every > 0
  {
    match a
    case DoRecord(ev, choice) => s.(st := RecordStep(cfg, s.st, ev, choice).0)
    case DoCheckpoint(choice) => s.(st := CheckpointStep(cfg, s.st, choice).0)
    case Restart => s.(st := s.st.(head := AuditService.Head(false, 0, [])))
    case StartVerify(id) => s.(verifiers := s.verifiers[id := Snapshot(cfg, s.st.db)])
    case VerifyTurn(id) =>
      if id in s.verifiers then s.(verifiers := s.verifiers[id := Turn(cfg, s.st.db, s.verifiers[id])]) else s
  }

  function Run(cfg: Config, s: Sys, actions: seq<Action>): Sys
    requires cfg.every > 0
  {
    if actions == [] then s
    else Next(cfg, Run(cfg, s, actions[..|actions| - 1]), actions[|actions| - 1])
  }

  const FRESH: Sys := Sys(State(Db([], []), AuditService.Head(false, 0, [])), map[])

  // ---------------------------------------------------------------- hypotheses

  /** The signer's key is the one its id names; without a signer the key is empty. */
  ghost predicate WellKeyed(keys: Option<Keyring>) {
    keys.Some? ==>
      if keys.value.keyed then KeyFor(keys.value, keys.value.signerId) == Some(keys.value.signerKey)
      else keys.value.signerKey == []
  }

  /** Producers name a key id only where Record overwrites or ignores it. */
  ghost predicate PlainKeyId(keys: Option<Keyring>, ev: Event) {
    keys.None? || keys.value.keyed || ev.keyId == []
  }

  ghost predicate PlainActions(keys: Option<Keyring>, actions: seq<Action>) {
    forall i :: 0 <= i < |actions| && actions[i].DoRecord? ==> PlainKeyId(keys, actions[i].ev)
  }

  // ---------------------------------------------------------------- the invariant

  function LastHash(rows: seq<Event>): Text { PrevOf(rows, |rows|) }

  ghost predicate HeadMatches(head: AuditService.Head, rows: seq<Event>) {
    (head.loaded || rows == []) ==> head.lastSeq == |rows| && head.lastHash == LastHash(rows)
  }

  ghost predicate AnchorOn(seqNo: int, headHash: seq<byte>, rows: seq<Event>) {
    1 <= seqNo <= |rows| && rows[seqNo - 1].hash == headHash
  }

  ghost predicate CheckpointSound(cfg: Config, cp: Checkpoint, rows: seq<Event>) {
    AnchorOn(cp.seqNo, cp.headHash, rows) && cp.digest == CheckpointDigest(cfg, cp.seqNo, cp.headHash)
  }

  ghost predicate StateSound(cfg: Config, st: State) {
    && ValidChain(cfg.mac, cfg.keys, st.db.rows)
    && HeadMatches(st.head, st.db.rows)
    && (forall i :: 0 <= i < |st.db.checkpoints| ==> CheckpointSound(cfg, st.db.checkpoints[i], st.db.rows))
  }

  ghost predicate VerifierSound(cfg: Config, v: Verifier, rows: seq<Event>) {
    match v
    case Walking(through, cp, w) =>
      && 0 <= w.last <= through <= |rows|
      && Stands(cp, w, Links(Digester(cfg.mac, cfg.keys), rows[..w.last]))
      && (cp.Some? ==> AnchorOn(cp.value.seqNo, cp.value.headHash, rows) && cp.value.seqNo <= through)
    case Finished(cp, report) =>
      report.intact && 0 <= report.through == report.count <= |rows|
      && report.unkeyedCount == |Unkeyed(cfg.mac, cfg.keys, rows[..report.through])|
      && (report.authenticated <==> report.unkeyedCount == 0)
      && (cp.Some? ==> report.anchorMatch && cp.value.seqNo <= report.through)
  }

  ghost predicate Sound(cfg: Config, s: Sys) {
    StateSound(cfg, s.st) && forall id :: id in s.verifiers ==> VerifierSound(cfg, s.verifiers[id], s.st.db.rows)
  }

  // ---------------------------------------------------------------- steps of the writer

  /** A row signed after the chain's own head continues the chain. */
  lemma SignedRowVerifies(cfg: Config, head: AuditService.Head, ev: Event, choice: Choice)
    requires WellKeyed(cfg.keys) && PlainKeyId(cfg.keys, ev)
    ensures Digest(cfg.mac, cfg.keys, Signed(cfg, head, ev, choice)).verdict.Good?
  {
    var row := Signed(cfg, head, ev, choice);
    var key := SignerKey(cfg.keys);
    HashCoversFields(cfg.mac, key, row);
    assert HashWith(cfg.mac, key, row) == row.hash;
  }

  lemma HashCoversFields(mac: Mac, key: seq<byte>, row: Event)
    ensures forall h: Text :: HashWith(mac, key, row.(hash := h)) == HashWith(mac, key, row)
  {
    forall h: Text
      ensures Fields(row.(hash := h)) == Fields(row)
    {
    }
  }

  lemma ChainExtends(mac: Mac, keys: Option<Keyring>, rows: seq<Event>, row: Event)
    requires ValidChain(mac, keys, rows) && row.seqNo == |rows| + 1 && row.prevHash == LastHash(rows)
    requires Digest(mac, keys, row).verdict.Good?
    ensures ValidChain(mac, keys, rows + [row])
  {
    var link := Digester(mac, keys);
    LinksAppend(link, rows, [row]);
    assert Links(link, [row]) == [Digest(mac, keys, row)];
    assert |rows| > 0 ==> Links(link, rows)[|rows| - 1] == Digest(mac, keys, rows[|rows| - 1]);
    ValidExtends(Links(link, rows), Digest(mac, keys, row));
  }

  /** Reading the head back from a valid chain gives its last row. */
  lemma LoadIsSound(cfg: Config, st: State)
    requires StateSound(cfg, st)
    ensures HeadMatches(Load(st.db, st.head), st.db.rows) && Load(st.db, st.head).loaded
  {
    var rows := st.db.rows;
    if rows != [] {
      var link := Digester(cfg.mac, cfg.keys);
      var top := Top(rows);
      ValidIsNumbered(link, rows);
      var i :| 0 <= i < |rows| && rows[i] == top;
      assert KeyOf(link)(rows[i]) == i + 1 && KeyOf(link)(rows[|rows| - 1]) == |rows|;
      assert rows[|rows| - 1] in rows;
    }
  }

  lemma CheckpointKeepsSound(cfg: Config, st: State, choice: CpChoice)
    requires StateSound(cfg, st)
    ensures StateSound(cfg, CheckpointStep(cfg, st, choice).0)
    ensures CheckpointStep(cfg, st, choice).0.db.rows == st.db.rows
    ensures var cp := CheckpointStep(cfg, st, choice).1; cp.Some? ==> CheckpointSound(cfg, cp.value, st.db.rows)
  {
    LoadIsSound(cfg, st);
  }

  lemma AppendedIsSound(cfg: Config, db: Db, head: AuditService.Head, row: Event)
    requires StateSound(cfg, State(db, head)) && head.loaded && |db.rows| < MAX_INT64
    requires row.seqNo == Increment(head.lastSeq) && row.prevHash == head.lastHash
    requires Digest(cfg.mac, cfg.keys, row).verdict.Good?
    ensures var longer := db.(rows := db.rows + [row]);
            && StateSound(cfg, State(longer, AuditService.Head(true, row.seqNo, row.hash)))
            && StateSound(cfg, State(longer, head.(loaded := false)))
  {
    ChainExtends(cfg.mac, cfg.keys, db.rows, row);
    AppendKeepsCheckpoints(cfg, db, row);
  }

  ghost predicate GrewByOne(rows: seq<Event>, later: seq<Event>, ok: bool) {
    rows <= later && |later| <= |rows| + 1 && (ok ==> |later| == |rows| + 1)
  }

  lemma AppendKeepsSound(cfg: Config, db: Db, head: AuditService.Head, row: Event, choice: Choice)
    requires cfg.every > 0 && StateSound(cfg, State(db, head)) && head.loaded && |db.rows| < MAX_INT64
    requires row.seqNo == Increment(head.lastSeq) && row.prevHash == head.lastHash
    requires Digest(cfg.mac, cfg.keys, row).verdict.Good?
    ensures var (next, ok) := Append(cfg, db, head, row, choice);
            StateSound(cfg, next) && GrewByOne(db.rows, next.db.rows, ok)
  {
    AppendedIsSound(cfg, db, head, row);
    CheckpointKeepsSound(cfg, State(db.(rows := db.rows + [row]), AuditService.Head(true, row.seqNo, row.hash)),
                         choice.cp);
  }

  lemma RecordKeepsSound(cfg: Config, st: State, ev: Event, choice: Choice)
    requires cfg.every > 0 && WellKeyed(cfg.keys) && PlainKeyId(cfg.keys, ev)
    requires StateSound(cfg, st) && |st.db.rows| < MAX_INT64
    ensures var (next, ok) := RecordStep(cfg, st, ev, choice);
            StateSound(cfg, next) && GrewByOne(st.db.rows, next.db.rows, ok)
  {
    if !cfg.blank(ev.action) && (st.head.loaded || choice.loadOk) {
      LoadIsSound(cfg, st);
      var head := if st.head.loaded then st.head else Load(st.db, st.head);
      SignedRowVerifies(cfg, head, ev, choice);
      AppendKeepsSound(cfg, st.db, head, Signed(cfg, head, ev, choice), choice);
    }
  }

  lemma AppendKeepsCheckpoints(cfg: Config, db: Db, row: Event)
    requires forall i :: 0 <= i < |db.checkpoints| ==> CheckpointSound(cfg, db.checkpoints[i], db.rows)
    ensures forall i :: 0 <= i < |db.checkpoints| ==> CheckpointSound(cfg, db.checkpoints[i], db.rows + [row])
  {
  }

  // ---------------------------------------------------------------- steps of a verification

  lemma LatestIsSound(cfg: Config, st: State)
    requires StateSound(cfg, st) && Latest(st.db.checkpoints).Some?
    ensures CheckpointSound(cfg, Latest(st.db.checkpoints).value, st.db.rows)
  {
    var cps := st.db.checkpoints;
    var i :| 0 <= i < |cps| && cps[i] == Latest(cps).value;
  }

  lemma SoundTable(cfg: Config, st: State)
    requires StateSound(cfg, st)
    ensures forall ev :: ev in st.db.rows ==> ev.seqNo > 0
    ensures PagedChain.Head(Digester(cfg.mac, cfg.keys), st.db.rows) == |st.db.rows|
  {
    var link := Digester(cfg.mac, cfg.keys);
    ValidIsNumbered(link, st.db.rows);
    NumberedTable(link, st.db.rows, st.db.rows);
    forall ev | ev in st.db.rows
      ensures ev.seqNo > 0
    {
      var i :| 0 <= i < |st.db.rows| && st.db.rows[i] == ev;
      assert link(st.db.rows[i]).seqNo > 0;
    }
  }

  lemma NothingWalkedYet(cp: Option<Anchor>, done: seq<Link>)
    requires done == []
    ensures Stands(cp, START, done)
  {
  }

  lemma SnapshotIsSound(cfg: Config, st: State)
    requires StateSound(cfg, st)
    ensures VerifierSound(cfg, Snapshot(cfg, st.db), st.db.rows)
    ensures Snapshot(cfg, st.db) == Walking(|st.db.rows|, AnchorOf(Latest(st.db.checkpoints)), START)
  {
    SoundTable(cfg, st);
    if Latest(st.db.checkpoints).Some? { LatestIsSound(cfg, st); }
    NothingWalkedYet(AnchorOf(Latest(st.db.checkpoints)), Links(Digester(cfg.mac, cfg.keys), st.db.rows[..0]));
  }

  /** Rows appended meanwhile do not disturb a verification under way. */
  lemma AppendKeepsVerifier(cfg: Config, v: Verifier, rows: seq<Event>, later: seq<Event>)
    requires VerifierSound(cfg, v, rows) && rows <= later
    ensures VerifierSound(cfg, v, later)
  {
    if v.Walking? {
      assert rows[..v.w.last] == later[..v.w.last];
    } else {
      assert rows[..v.report.through] == later[..v.report.through];
    }
  }

  /** The rows up to a watermark are a chain the later rows extend. */
  lemma FrontIsChain(cfg: Config, rows: seq<Event>, through: nat)
    requires ValidChain(cfg.mac, cfg.keys, rows) && through <= |rows|
    ensures ValidChain(cfg.mac, cfg.keys, rows[..through])
    ensures SeesChain(Digester(cfg.mac, cfg.keys), rows, rows[..through])
  {
    var link := Digester(cfg.mac, cfg.keys);
    ValidIsNumbered(link, rows);
    LinksFront(link, rows, through);
    ValidPrefix(Links(link, rows), through);
  }

  lemma FrontOfFront<T>(rows: seq<T>, m: nat, n: nat)
    requires m <= n <= |rows|
    ensures rows[..n][..m] == rows[..m]
  {
  }

  lemma TurnIsSound(cfg: Config, st: State, v: Verifier)
    requires StateSound(cfg, st) && VerifierSound(cfg, v, st.db.rows)
    ensures VerifierSound(cfg, Turn(cfg, st.db, v), st.db.rows)
    ensures v.Walking? ==> match Turn(cfg, st.db, v)
                           case Walking(through, cp, w) => through == v.through && cp == v.cp && v.w.last < w.last
                           case Finished(cp, report) => report.through == v.through && cp == v.cp
  {
    if v.Walking? {
      var link := Digester(cfg.mac, cfg.keys);
      var rows, chain, w := st.db.rows, st.db.rows[..v.through], v.w;
      if w.last < v.through {
        FrontIsChain(cfg, rows, v.through);
        FrontOfFront(rows, w.last, v.through);
        GrowingPageGoesOn(link, v.cp, w, rows, chain);
        FrontOfFront(rows, WalkPage(v.cp, w, Links(link, Fetch(link, rows, w.last, v.through))).w.last, v.through);
      } else {
        ConcludeMeaning(v.cp, w, Links(link, rows[..w.last]));
        CountMeans(cfg.mac, cfg.keys, rows[..w.last]);
      }
    }
  }

  // ---------------------------------------------------------------- every run

  lemma NextKeepsSound(cfg: Config, s: Sys, a: Action)
    requires cfg.every > 0 && WellKeyed(cfg.keys) && Sound(cfg, s)
    requires a.DoRecord? ==> PlainKeyId(cfg.keys, a.ev) && |s.st.db.rows| < MAX_INT64
    ensures Sound(cfg, Next(cfg, s, a))
    ensures s.st.db.rows <= Next(cfg, s, a).st.db.rows && |Next(cfg, s, a).st.db.rows| <= |s.st.db.rows| + 1
  {
    hide RecordStep, CheckpointStep, Turn, Snapshot, PlainKeyId;
    match a
    case DoRecord(ev, choice) =>
      RecordKeepsSound(cfg, s.st, ev, choice);
      forall id | id in s.verifiers
        ensures VerifierSound(cfg, s.verifiers[id], Next(cfg, s, a).st.db.rows)
      {
        AppendKeepsVerifier(cfg, s.verifiers[id], s.st.db.rows, Next(cfg, s, a).st.db.rows);
      }
    case DoCheckpoint(choice) => CheckpointKeepsSound(cfg, s.st, choice);
    case Restart =>
    case StartVerify(id) => SnapshotIsSound(cfg, s.st);
    case VerifyTurn(id) => if id in s.verifiers { TurnIsSound(cfg, s.st, s.verifiers[id]); }
  }

  /** MAIN RESULT. In every run from an empty store, shorter than 2^63 - 1 actions: the stored
      rows are one valid chain, a loaded head is the stored head, every checkpoint names the
      hash of its row, and every verification that finished reported an intact chain whose
      checkpoint lies at or below its watermark, with the number of its rows that only the empty key
      explains. Rows, once stored, stay. */
  lemma {:induction false} EveryRunIsSound(cfg: Config, actions: seq<Action>)
    requires cfg.every > 0 && WellKeyed(cfg.keys) && PlainActions(cfg.keys, actions) && |actions| < MAX_INT64
    ensures Sound(cfg, Run(cfg, FRESH, actions)) && |Run(cfg, FRESH, actions).st.db.rows| <= |actions|
    ensures actions != [] ==>
      Run(cfg, FRESH, actions[..|actions| - 1]).st.db.rows <= Run(cfg, FRESH, actions).st.db.rows
  {
    if actions == [] {
      assert Links(Digester(cfg.mac, cfg.keys), FRESH.st.db.rows) == [];
    } else {
      EveryRunIsSound(cfg, actions[..|actions| - 1]);
      NextKeepsSound(cfg, Run(cfg, FRESH, actions[..|actions| - 1]), actions[|actions| - 1]);
    }
  }

  /** The caller's key id, where Record keeps it, happens to name a key with the same MAC. */
  ghost predicate LuckyKeyId(cfg: Config, head: AuditService.Head, ev: Event, choice: Choice) {
    cfg.keys.Some? && KeyFor(cfg.keys.value, ev.keyId).Some?
    && HashWith(cfg.mac, KeyFor(cfg.keys.value, ev.keyId).value, Signed(cfg, head, ev, choice))
       == HashWith(cfg.mac, SignerKey(cfg.keys), Signed(cfg, head, ev, choice))
  }

  /** Exactly when a row that Record signs verifies: the service overwrites or ignores the key id,
      or the id the caller supplied names a key that gives the same MAC as the signer's. */
  lemma SignedVerifiesExactly(cfg: Config, head: AuditService.Head, ev: Event, choice: Choice)
    requires WellKeyed(cfg.keys)
    ensures Digest(cfg.mac, cfg.keys, Signed(cfg, head, ev, choice)).verdict.Good? <==>
      PlainKeyId(cfg.keys, ev) || LuckyKeyId(cfg, head, ev, choice)
  {
    var row, key := Signed(cfg, head, ev, choice), SignerKey(cfg.keys);
    HashCoversFields(cfg.mac, key, row);
    assert HashWith(cfg.mac, key, row) == row.hash;
    if PlainKeyId(cfg.keys, ev) {
      SignedRowVerifies(cfg, head, ev, choice);
    } else {
      assert row.keyId == ev.keyId;
    }
  }

  /** So the hypothesis on key ids is needed: appended after a valid chain, a row with neither
      breaks it, whether the keyring knows the id or not. */
  lemma ForeignKeyIdBreaksTheChain(cfg: Config, head: AuditService.Head, ev: Event, choice: Choice, rows: seq<Event>)
    requires WellKeyed(cfg.keys) && ValidChain(cfg.mac, cfg.keys, rows)
    requires Increment(head.lastSeq) == |rows| + 1 && head.lastHash == LastHash(rows)
    ensures ValidChain(cfg.mac, cfg.keys, rows + [Signed(cfg, head, ev, choice)]) <==>
      PlainKeyId(cfg.keys, ev) || LuckyKeyId(cfg, head, ev, choice)
  {
    var row := Signed(cfg, head, ev, choice);
    SignedVerifiesExactly(cfg, head, ev, choice);
    if PlainKeyId(cfg.keys, ev) || LuckyKeyId(cfg, head, ev, choice) {
      ChainExtends(cfg.mac, cfg.keys, rows, row);
    } else {
      var links := Links(Digester(cfg.mac, cfg.keys), rows + [row]);
      assert links[|rows|] == Digest(cfg.mac, cfg.keys, row);
      assert !Fits(links, |rows|);
    }
  }
}
