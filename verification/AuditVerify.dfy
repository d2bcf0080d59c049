/** The verifier on audit rows (internal/audit/audit.go: Verify and verifyChain), and what an
    intact chain proves about the history behind it. */
module AuditVerify {
  import opened Common
  import opened AuditHash
  import opened ChainWalk
  import opened KeysetPages
  import opened PagedChain

  /** One recorded chain anchor. */
  datatype Checkpoint = Checkpoint(id: Text, seqNo: int64, headHash: Text, digest: Text, keyId: Text, createdAt: int64)

  /** What the verifier learns of one row. */
  function Digest(mac: Mac, keys: Option<Keyring>, ev: Event): Link {
    var kind := RowMatchKind(mac, keys, ev);
    Link(ev.seqNo, ev.prevHash, ev.hash,
         if !KeyKnown(keys, ev.keyId) then UnknownKeyId
         else if kind.NoMatch? then BadHash
         else Good(kind.MatchUnkeyed?))
  }

  function Digester(mac: Mac, keys: Option<Keyring>): Event -> Link { ev => Digest(mac, keys, ev) }

  function AnchorOf(cp: Option<Checkpoint>): Option<Anchor> {
    match cp
    case None => None
    case Some(c) => Some(Anchor(c.seqNo, c.headHash))
  }

  /** Rows 1..n in order, each linked to the one before and verified by the keys. */
  ghost predicate ValidChain(mac: Mac, keys: Option<Keyring>, rows: seq<Event>) {
    ValidRows(Digester(mac, keys), rows)
  }

  // ---------------------------------------------------------------- what the flags mean

  /** The row carries a hash that a key given for its id makes; a row without an id may also have
      been hashed under no key at all, and without a keyring every row must have been. */
  ghost predicate Proven(mac: Mac, keys: Option<Keyring>, ev: Event) {
    match keys
    case None => mac([], Message(ev)) == ev.hash
    case Some(kr) =>
      if ev.keyId == [] then mac([], Message(ev)) == ev.hash || LegacyHashed(mac, kr, ev)
      else ev.keyId in kr.verify && mac(kr.verify[ev.keyId], Message(ev)) == ev.hash
  }

  /** A secret of the keyring that rows without a key id may have been signed with hashes the row. */
  ghost predicate LegacyHashed(mac: Mac, kr: Keyring, ev: Event) {
    exists k :: k in kr.legacy && k != [] && mac(k, Message(ev)) == ev.hash
  }

  /** Only the empty key explains the row: whoever writes to the table could have made it. */
  ghost predicate OnlyEmptyKey(mac: Mac, keys: Option<Keyring>, ev: Event) {
    && mac([], Message(ev)) == ev.hash
    && (keys.None? || (ev.keyId == [] && !LegacyHashed(mac, keys.value, ev)))
  }

  /** A secret key given for the row's id hashes it. */
  ghost predicate SecretlyHashed(mac: Mac, keys: Option<Keyring>, ev: Event) {
    && keys.Some?
    && if ev.keyId == [] then LegacyHashed(mac, keys.value, ev)
       else ev.keyId in keys.value.verify && keys.value.verify[ev.keyId] != []
            && mac(keys.value.verify[ev.keyId], Message(ev)) == ev.hash
  }

  /** No key id stands for the empty key. */
  ghost predicate NoEmptyKeys(keys: Option<Keyring>) { keys.Some? ==> [] !in keys.value.verify.Values }

  lemma DigestMeans(mac: Mac, keys: Option<Keyring>, ev: Event)
    ensures var x := Digest(mac, keys, ev);
            && x.seqNo == ev.seqNo && x.prev == ev.prevHash && x.hash == ev.hash
            && (x.verdict.Good? <==> Proven(mac, keys, ev))
            && (x.verdict.Good? ==> (x.verdict.unkeyed <==> OnlyEmptyKey(mac, keys, ev)))
            && (x.verdict.UnknownKeyId? <==> keys.Some? && ev.keyId != [] && ev.keyId !in keys.value.verify)
    ensures NoEmptyKeys(keys) && Proven(mac, keys, ev) ==>
      (SecretlyHashed(mac, keys, ev) <==> !OnlyEmptyKey(mac, keys, ev))
  {
    if keys.Some? && ev.keyId in keys.value.verify {
      assert keys.value.verify[ev.keyId] in keys.value.verify.Values;
    }
  }

  /** Row i has number i + 1, names the hash of the row before it, and is proven. */
  ghost predicate ChainRow(mac: Mac, keys: Option<Keyring>, rows: seq<Event>, i: nat)
    requires i < |rows|
  {
    && rows[i].seqNo == i + 1 && rows[i].prevHash == (if i == 0 then [] else rows[i - 1].hash)
    && Proven(mac, keys, rows[i])
  }

  lemma ChainMeans(mac: Mac, keys: Option<Keyring>, rows: seq<Event>)
    ensures ValidChain(mac, keys, rows) <==> forall i :: 0 <= i < |rows| ==> ChainRow(mac, keys, rows, i)
  {
    var links := Links(Digester(mac, keys), rows);
    forall i | 0 <= i < |rows|
      ensures Fits(links, i) <==> ChainRow(mac, keys, rows, i)
    {
      DigestMeans(mac, keys, rows[i]);
      if i > 0 { DigestMeans(mac, keys, rows[i - 1]); }
    }
    assert forall i :: 0 <= i < |rows| ==> (Fits(links, i) <==> ChainRow(mac, keys, rows, i));
  }

  ghost function Unkeyed(mac: Mac, keys: Option<Keyring>, rows: seq<Event>): set<Event> {
    set ev | ev in rows && OnlyEmptyKey(mac, keys, ev)
  }

  lemma LastIsNew(mac: Mac, keys: Option<Keyring>, rows: seq<Event>)
    requires ValidChain(mac, keys, rows) && rows != []
    ensures rows[|rows| - 1] !in rows[..|rows| - 1]
  {
    ChainMeans(mac, keys, rows);
    forall i | 0 <= i < |rows| - 1
      ensures rows[i] != rows[|rows| - 1]
    {
      assert ChainRow(mac, keys, rows, i) && ChainRow(mac, keys, rows, |rows| - 1);
    }
  }

  lemma LastCounts(mac: Mac, keys: Option<Keyring>, rows: seq<Event>)
    requires ValidChain(mac, keys, rows) && rows != []
    ensures ValidChain(mac, keys, rows[..|rows| - 1])
    ensures CountUnkeyed(Links(Digester(mac, keys), rows)) ==
            CountUnkeyed(Links(Digester(mac, keys), rows[..|rows| - 1]))
            + if OnlyEmptyKey(mac, keys, rows[|rows| - 1]) then 1 else 0
  {
    var links, n := Links(Digester(mac, keys), rows), |rows| - 1;
    ValidPrefix(links, n);
    LinksFront(Digester(mac, keys), rows, n);
    DigestMeans(mac, keys, rows[n]);
    assert Fits(links, n) && links[n] == Digest(mac, keys, rows[n]);
  }

  lemma LastInUnkeyed(mac: Mac, keys: Option<Keyring>, rows: seq<Event>)
    requires rows != [] && rows[|rows| - 1] !in rows[..|rows| - 1]
    ensures |Unkeyed(mac, keys, rows)| ==
            |Unkeyed(mac, keys, rows[..|rows| - 1])| + if OnlyEmptyKey(mac, keys, rows[|rows| - 1]) then 1 else 0
  {
    hide OnlyEmptyKey;
    var front, last := rows[..|rows| - 1], rows[|rows| - 1];
    assert rows == front + [last];
    assert Unkeyed(mac, keys, rows) ==
      Unkeyed(mac, keys, front) + if OnlyEmptyKey(mac, keys, last) then {last} else {};
  }

  lemma {:induction false} CountMeans(mac: Mac, keys: Option<Keyring>, rows: seq<Event>)
    requires ValidChain(mac, keys, rows)
    ensures CountUnkeyed(Links(Digester(mac, keys), rows)) == |Unkeyed(mac, keys, rows)|
  {
    hide Digest, ValidLinks, OnlyEmptyKey;
    if rows != [] {
      hide Links, CountUnkeyed, Unkeyed;
      LastCounts(mac, keys, rows);
      LastIsNew(mac, keys, rows);
      LastInUnkeyed(mac, keys, rows);
      CountMeans(mac, keys, rows[..|rows| - 1]);
    }
  }

  /** All rows are secretly hashed when none has the empty key alone. */
  lemma SecretMeans(mac: Mac, keys: Option<Keyring>, rows: seq<Event>)
    requires ValidChain(mac, keys, rows) && NoEmptyKeys(keys)
    ensures |Unkeyed(mac, keys, rows)| == 0 <==> forall ev :: ev in rows ==> SecretlyHashed(mac, keys, ev)
  {
    ChainMeans(mac, keys, rows);
    forall ev | ev in rows
      ensures SecretlyHashed(mac, keys, ev) <==> ev !in Unkeyed(mac, keys, rows)
    {
      var i :| 0 <= i < |rows| && rows[i] == ev;
      assert ChainRow(mac, keys, rows, i);
      DigestMeans(mac, keys, ev);
    }
    if |Unkeyed(mac, keys, rows)| == 0 { assert Unkeyed(mac, keys, rows) == {}; }
    if forall ev :: ev in rows ==> SecretlyHashed(mac, keys, ev) {
      assert Unkeyed(mac, keys, rows) == {};
    }
  }

  /** What an intact report says of the rows of the table behind it. */
  lemma IntactMeans(mac: Mac, keys: Option<Keyring>, table: seq<Event>, chain: seq<Event>)
    requires multiset(table) == multiset(chain) && ValidChain(mac, keys, chain)
    ensures CountUnkeyed(Links(Digester(mac, keys), chain)) == |set ev | ev in table && OnlyEmptyKey(mac, keys, ev)|
    ensures NoEmptyKeys(keys) ==>
      (CountUnkeyed(Links(Digester(mac, keys), chain)) == 0 <==>
       forall ev :: ev in table ==> SecretlyHashed(mac, keys, ev))
  {
    CountMeans(mac, keys, chain);
    forall ev
      ensures ev in table <==> ev in chain
    {
      SameMembers(table, chain, ev);
    }
    assert Unkeyed(mac, keys, chain) == set ev | ev in table && OnlyEmptyKey(mac, keys, ev);
    if NoEmptyKeys(keys) { SecretMeans(mac, keys, chain); }
  }

  /** A broken report names the first row that does not continue the chain and why, or else the
      checkpoint: records after it are gone, or it was rewritten. */
  ghost predicate NamesMisfit(mac: Mac, keys: Option<Keyring>, rows: seq<Event>, cp: Option<Checkpoint>, r: Report) {
    if r.count < |rows| then
      var ev := rows[r.count];
      && (forall i :: 0 <= i < r.count ==> ChainRow(mac, keys, rows, i)) && !ChainRow(mac, keys, rows, r.count)
      && r.brokenAt == ev.seqNo
      && r.why == (if ev.seqNo != r.count + 1 then SequenceGap
                   else if ev.prevHash != (if r.count == 0 then [] else rows[r.count - 1].hash) then PrevHashMismatch
                   else if keys.Some? && ev.keyId != [] && ev.keyId !in keys.value.verify then UnknownKey
                   else HashMismatch)
    else
      && (forall i :: 0 <= i < |rows| ==> ChainRow(mac, keys, rows, i)) && r.count == |rows| && cp.Some?
      && (if cp.value.seqNo > |rows| then r.why == BelowCheckpoint && r.brokenAt == |rows| + 1
          else r.why == CheckpointRewritten && r.brokenAt == cp.value.seqNo)
  }

  /** The first link that does not fit, in terms of the rows. */
  lemma MisfitRow(mac: Mac, keys: Option<Keyring>, rows: seq<Event>, i: nat, why: Why)
    requires FirstMisfit(Links(Digester(mac, keys), rows), i, why)
    ensures i < |rows| && (forall j :: 0 <= j < i ==> ChainRow(mac, keys, rows, j)) && !ChainRow(mac, keys, rows, i)
    ensures why == (if rows[i].seqNo != i + 1 then SequenceGap
                    else if rows[i].prevHash != (if i == 0 then [] else rows[i - 1].hash) then PrevHashMismatch
                    else if keys.Some? && rows[i].keyId != [] && rows[i].keyId !in keys.value.verify then UnknownKey
                    else HashMismatch)
  {
    hide Digest, Proven, OnlyEmptyKey, SecretlyHashed, ValidLinks;
    ChainMeans(mac, keys, rows[..i]);
    LinksFront(Digester(mac, keys), rows, i);
    forall j | 0 <= j < i
      ensures ChainRow(mac, keys, rows, j)
    {
      assert ChainRow(mac, keys, rows[..i], j);
    }
    DigestMeans(mac, keys, rows[i]);
    if i > 0 { DigestMeans(mac, keys, rows[i - 1]); }
  }

  lemma MisfitNamed(mac: Mac, keys: Option<Keyring>, rows: seq<Event>, cp: Option<Checkpoint>, through: int, r: Report)
    requires Tells(AnchorOf(cp), Links(Digester(mac, keys), rows), through, r) && !r.intact
    ensures NamesMisfit(mac, keys, rows, cp, r)
  {
    hide ValidLinks, FirstMisfit, ChainRow, Digest, CountUnkeyed;
    if ValidChain(mac, keys, rows) {
      ChainMeans(mac, keys, rows);
    } else {
      MisfitRow(mac, keys, rows, r.count, r.why);
      DigestMeans(mac, keys, rows[r.count]);
    }
  }

  /** These rows are a chain, numbered, linked and proven up to the highest number and meeting the
      checkpoint; some page query saw each of them, and the report counts those of the empty key. */
  ghost predicate SawProven(mac: Mac, keys: Option<Keyring>, cp: Option<Checkpoint>, view: nat -> seq<Event>,
                            r: Report, rows: seq<Event>) {
    && |rows| == r.through && (forall i :: 0 <= i < |rows| ==> ChainRow(mac, keys, rows, i))
    && (cp.Some? ==> 1 <= cp.value.seqNo <= |rows| && rows[cp.value.seqNo - 1].hash == cp.value.headHash)
    && (forall ev :: ev in rows ==> exists k: nat :: ev in view(k))
    && r.unkeyedCount == |set ev | ev in rows && OnlyEmptyKey(mac, keys, ev)|
    && (r.authenticated <==> r.unkeyedCount == 0)
  }

  lemma SeenIsProven(mac: Mac, keys: Option<Keyring>, cp: Option<Checkpoint>, view: nat -> seq<Event>, r: Report)
    requires r.authenticated <==> r.unkeyedCount == 0
    requires exists done :: SeenChain(Digester(mac, keys), AnchorOf(cp), view, done) && |done| == r.through
                            && r.unkeyedCount == CountUnkeyed(Links(Digester(mac, keys), done))
    ensures exists rows :: SawProven(mac, keys, cp, view, r, rows)
  {
    hide Links, CountUnkeyed, ChainRow, OnlyEmptyKey, ValidLinks, Digest, AnchorHolds;
    var rows :| SeenChain(Digester(mac, keys), AnchorOf(cp), view, rows) && |rows| == r.through
                && r.unkeyedCount == CountUnkeyed(Links(Digester(mac, keys), rows));
    ChainMeans(mac, keys, rows);
    MeetMeans(mac, keys, rows, cp);
    CountMeans(mac, keys, rows);
    assert SawProven(mac, keys, cp, view, r, rows);
  }

  /** Verify on the audit table. MAIN RESULT: on a table that stands still it is intact exactly when
      the rows in order are numbered from one, linked and proven, and the anchored row is in place;
      then it counts the rows that only the empty key explains, and is authenticated exactly when
      every row is hashed under a secret key. A table that grows is reported by the rows it had, and
      whatever becomes of it meanwhile, an intact report saw such rows up to the highest number.
      See VerifyPages for the first break. */
  method Verify(mac: Mac, keys: Option<Keyring>, table: seq<Event>, cp: Option<Checkpoint>, view: nat -> seq<Event>)
      returns (r: Report)
    ensures Still(table, view) ==>
      (r.intact <==> ValidChain(mac, keys, InOrder(Digester(mac, keys), table))
                     && RowsMeet(Digester(mac, keys), AnchorOf(cp), InOrder(Digester(mac, keys), table)))
    ensures Still(table, view) ==>
      var rows := InOrder(Digester(mac, keys), table);
      r.intact <==> && (forall i :: 0 <= i < |rows| ==> ChainRow(mac, keys, rows, i))
                    && (cp.Some? ==>
                          1 <= cp.value.seqNo <= |rows| && rows[cp.value.seqNo - 1].hash == cp.value.headHash)
    ensures r.intact && (Still(table, view) || exists chain :: Grows(Digester(mac, keys), table, view, chain)) ==>
      && r.unkeyedCount == |set ev | ev in table && OnlyEmptyKey(mac, keys, ev)|
      && (r.authenticated <==> r.unkeyedCount == 0)
      && (NoEmptyKeys(keys) ==>
            (r.authenticated <==> forall ev :: ev in table ==> SecretlyHashed(mac, keys, ev)))
    ensures forall chain :: Grows(Digester(mac, keys), table, view, chain) ==>
      Reports(Digester(mac, keys), AnchorOf(cp), chain, r)
    ensures (&& Still(table, view) && NoDuplicates(Digester(mac, keys), table)
             && AllPositive(Digester(mac, keys), table)) ==>
      r == OnePass(Digester(mac, keys), AnchorOf(cp), table)
      && (r.intact || NamesMisfit(mac, keys, InOrder(Digester(mac, keys), table), cp, r))
    ensures Fixed(table, view) && AllPositive(Digester(mac, keys), table) ==>
      FirstBreakReported(Digester(mac, keys), AnchorOf(cp), table, r)
    ensures r.intact ==> exists rows :: SawProven(mac, keys, cp, view, r, rows)
    ensures (exists ev :: ev in table && ev.seqNo <= 0) ==>
      && !r.intact && !r.anchorMatch && !r.authenticated && r.why == OutsideDomain
      && r.count == r.through == r.unkeyedCount == 0
      && exists ev :: ev in table && ev.seqNo <= 0 && r.brokenAt == ev.seqNo
    ensures r.intact && cp.Some? ==> r.anchorMatch && cp.value.seqNo <= r.through
  {
    PositiveMeans(mac, keys, table);
    hide Links, InOrder, Digest, WalkRows, CountUnkeyed, SeenChain, SawProven, Tells, NumberIn, FirstBreakReported;
    r := VerifyPages(Digester(mac, keys), table, AnchorOf(cp), view);
    if (&& Still(table, view) && NoDuplicates(Digester(mac, keys), table)
        && AllPositive(Digester(mac, keys), table) && !r.intact) {
      MisfitNamed(mac, keys, InOrder(Digester(mac, keys), table), cp, Head(Digester(mac, keys), table), r);
    }
    if Still(table, view) {
      var rows := InOrder(Digester(mac, keys), table);
      ChainMeans(mac, keys, rows);
      MeetMeans(mac, keys, rows, cp);
      if r.intact { StillValidGrows(Digester(mac, keys), table, view); }
    }
    if r.intact { SeenIsProven(mac, keys, cp, view, r); }
    if r.intact && exists chain :: Grows(Digester(mac, keys), table, view, chain) {
      var chain :| Grows(Digester(mac, keys), table, view, chain);
      IntactMeans(mac, keys, table, chain);
    }
  }

  lemma PositiveMeans(mac: Mac, keys: Option<Keyring>, table: seq<Event>)
    ensures AllPositive(Digester(mac, keys), table) <==> forall ev :: ev in table ==> ev.seqNo > 0
    ensures forall n :: NumberIn(Digester(mac, keys), table, n) <==> exists ev :: ev in table && ev.seqNo == n
  {
    forall i | 0 <= i < |table|
      ensures Digester(mac, keys)(table[i]).seqNo == table[i].seqNo && table[i] in table
    {
      DigestMeans(mac, keys, table[i]);
    }
    forall ev | ev in table
      ensures NumberIn(Digester(mac, keys), table, ev.seqNo)
      ensures AllPositive(Digester(mac, keys), table) ==> ev.seqNo > 0
    {
      var i :| 0 <= i < |table| && table[i] == ev;
      assert Digester(mac, keys)(table[i]).seqNo == ev.seqNo;
    }
  }

  lemma MeetMeans(mac: Mac, keys: Option<Keyring>, rows: seq<Event>, cp: Option<Checkpoint>)
    ensures RowsMeet(Digester(mac, keys), AnchorOf(cp), rows) <==>
            (cp.Some? ==> 1 <= cp.value.seqNo <= |rows| && rows[cp.value.seqNo - 1].hash == cp.value.headHash)
  {
    hide Digest, Proven, OnlyEmptyKey, SecretlyHashed;
    if cp.Some? && 1 <= cp.value.seqNo <= |rows| { DigestMeans(mac, keys, rows[cp.value.seqNo - 1]); }
  }

  // ---------------------------------------------------------------- verifyChain

  /** verifyChain: one pass with one hash function. */
  method VerifyChain(rows: seq<Event>, hashOf: Event -> Text) returns (intact: bool)
    ensures intact <==> forall i :: 0 <= i < |rows| ==> ChainedAt(rows, hashOf, i)
  {
    var prev: Text, next := [], 1;
    for i := 0 to |rows|
      invariant next == i + 1 && prev == PrevOf(rows, i)
      invariant forall j :: 0 <= j < i ==> ChainedAt(rows, hashOf, j)
    {
      var ev := rows[i];
      assert ChainedAt(rows, hashOf, i) <==> ev.seqNo == next && ev.prevHash == prev && hashOf(ev) == ev.hash;
      if ev.seqNo != next { return false; }
      if ev.prevHash != prev { return false; }
      if hashOf(ev) != ev.hash { return false; }
      prev, next := ev.hash, next + 1;
    }
    return true;
  }

  function PrevOf(rows: seq<Event>, i: nat): Text
    requires i <= |rows|
  {
    if i == 0 then [] else rows[i - 1].hash
  }

  ghost predicate ChainedAt(rows: seq<Event>, hashOf: Event -> Text, i: nat)
    requires i < |rows|
  {
    rows[i].seqNo == i + 1 && rows[i].prevHash == PrevOf(rows, i) && hashOf(rows[i]) == rows[i].hash
  }

  /** Where one key explains every row, verifyChain accepts exactly the chains Verify accepts. */
  lemma SimpleWalkAgrees(mac: Mac, keys: Option<Keyring>, rows: seq<Event>, hashOf: Event -> Text)
    requires forall ev :: ev in rows ==>
      (hashOf(ev) == ev.hash <==> KeyKnown(keys, ev.keyId) && !RowMatchKind(mac, keys, ev).NoMatch?)
    ensures ValidChain(mac, keys, rows) <==> forall i :: 0 <= i < |rows| ==> ChainedAt(rows, hashOf, i)
  {
    var links := Links(Digester(mac, keys), rows);
    forall i | 0 <= i < |rows|
      ensures Fits(links, i) <==> ChainedAt(rows, hashOf, i)
    {
      assert links[i] == Digest(mac, keys, rows[i]) && rows[i] in rows;
      assert i > 0 ==> links[i - 1] == Digest(mac, keys, rows[i - 1]);
    }
    assert forall i :: 0 <= i < |rows| ==> (Fits(links, i) <==> ChainedAt(rows, hashOf, i));
  }

  // ---------------------------------------------------------------- anchored history

  /** A key the verifier was given hashes row x to the hash it carries. */
  ghost predicate Hashed(mac: Mac, keys: Option<Keyring>, x: Event) {
    exists k :: Given(keys, k) && mac(k, Message(x)) == x.hash
  }

  ghost predicate SameHistory(a: seq<Event>, b: seq<Event>, n: nat)
    requires n <= |a| && n <= |b|
  {
    forall i :: 0 <= i < n ==> HashedPart(a[i]) == HashedPart(b[i]) && a[i].hash == b[i].hash
  }

  /** The messages of the two rows collide under keys of the two verifiers, at the hash both carry. */
  ghost predicate CollisionAt(mac: Mac, keys: Option<Keyring>, keys': Option<Keyring>, x: Event, y: Event) {
    exists k, k' :: Given(keys, k) && Given(keys', k') && Collision(mac, k, Message(x), k', Message(y))
                    && mac(k, Message(x)) == x.hash == y.hash
  }

  lemma RowHasKey(mac: Mac, keys: Option<Keyring>, rows: seq<Event>, i: nat) returns (k: seq<byte>)
    requires ValidChain(mac, keys, rows) && i < |rows|
    ensures Given(keys, k) && mac(k, Message(rows[i])) == rows[i].hash
    ensures rows[i].prevHash == PrevOf(rows, i)
  {
    var links := Links(Digester(mac, keys), rows);
    assert Fits(links, i) && links[i] == Digest(mac, keys, rows[i]);
    assert i > 0 ==> links[i - 1] == Digest(mac, keys, rows[i - 1]);
    k := VerifiedRowHasKey(mac, keys, rows[i]);
  }

  /** Equal hashes of two rows: equal contents, or a collision. */
  lemma EqualHashes(mac: Mac, keys: Option<Keyring>, keys': Option<Keyring>, x: Event, y: Event)
    requires Hashed(mac, keys, x) && Hashed(mac, keys', y) && x.hash == y.hash
    ensures if CollisionAt(mac, keys, keys', x, y) then Message(x) != Message(y) else HashedPart(x) == HashedPart(y)
    ensures HashedPart(x) == HashedPart(y) ==> x.prevHash == y.prevHash
  {
    var k :| Given(keys, k) && mac(k, Message(x)) == x.hash;
    var k' :| Given(keys', k') && mac(k', Message(y)) == y.hash;
    if Message(x) == Message(y) {
      MessageInjective(x, y);
    } else {
      assert Collision(mac, k, Message(x), k', Message(y));
    }
    assert x.prevHash == HashedPart(x).prevHash && y.prevHash == HashedPart(y).prevHash;
  }

  /** Row i was hashed under a given key and links to the row before it. */
  ghost predicate Explained(mac: Mac, keys: Option<Keyring>, rows: seq<Event>, i: nat)
    requires i < |rows|
  {
    rows[i].prevHash == PrevOf(rows, i) && Hashed(mac, keys, rows[i])
  }

  lemma ValidIsExplained(mac: Mac, keys: Option<Keyring>, rows: seq<Event>)
    requires ValidChain(mac, keys, rows)
    ensures forall i :: 0 <= i < |rows| ==> Explained(mac, keys, rows, i)
  {
    forall i | 0 <= i < |rows|
      ensures Explained(mac, keys, rows, i)
    {
      var k := RowHasKey(mac, keys, rows, i);
    }
  }

  ghost predicate Diverge(mac: Mac, keys: Option<Keyring>, keys': Option<Keyring>, a: seq<Event>, b: seq<Event>, n: nat)
    requires n <= |a| && n <= |b|
  {
    exists i :: 0 <= i < n && CollisionAt(mac, keys, keys', a[i], b[i])
  }

  lemma {:induction false} EqualHashEqualPast(mac: Mac, keys: Option<Keyring>, keys': Option<Keyring>,
                                              a: seq<Event>, b: seq<Event>, n: nat)
    requires n <= |a| && n <= |b| && PrevOf(a, n) == PrevOf(b, n)
    requires forall i :: 0 <= i < n ==> Explained(mac, keys, a, i) && Explained(mac, keys', b, i)
    ensures SameHistory(a, b, n) || Diverge(mac, keys, keys', a, b, n)
  {
    hide Message, HashedPart, Hashed, Collision;
    if n > 0 {
      var x, y := a[n - 1], b[n - 1];
      assert Explained(mac, keys, a, n - 1) && Explained(mac, keys', b, n - 1);
      EqualHashes(mac, keys, keys', x, y);
      if !CollisionAt(mac, keys, keys', x, y) {
        EqualHashEqualPast(mac, keys, keys', a, b, n - 1);
      }
    }
  }

  /** MAIN RESULT. One hash at one number anchors all history before it: two valid chains, under
      whatever keys, that carry the same hash at number n agree on every hashed field of every
      row up to n, or some pair of their rows at one number has different messages and yet one
      hash that the MAC gives both, under keys the two verifiers were given. */
  lemma AnchoredHistoryIsUnique(mac: Mac, keys: Option<Keyring>, keys': Option<Keyring>, a: seq<Event>, b: seq<Event>,
                                n: nat)
    requires ValidChain(mac, keys, a) && ValidChain(mac, keys', b)
    requires n <= |a| && n <= |b| && PrevOf(a, n) == PrevOf(b, n)
    ensures SameHistory(a, b, n) || Diverge(mac, keys, keys', a, b, n)
  {
    ValidIsExplained(mac, keys, a);
    ValidIsExplained(mac, keys', b);
    EqualHashEqualPast(mac, keys, keys', a, b, n);
  }

  /** A table that still verifies and meets a checkpoint taken of the chain `a` holds the very
      rows of `a` up to the checkpoint: none removed, none rewritten in a hashed field, unless
      different messages share a hash. The keys may have been rotated in between. */
  lemma CheckpointPinsHistory(mac: Mac, keys: Option<Keyring>, keys': Option<Keyring>, a: seq<Event>, b: seq<Event>,
                              cp: Anchor)
    requires ValidChain(mac, keys, a) && RowsMeet(Digester(mac, keys), Some(cp), a)
    requires ValidChain(mac, keys', b) && RowsMeet(Digester(mac, keys'), Some(cp), b)
    ensures 1 <= cp.seqNo <= |a| && cp.seqNo <= |b|
    ensures SameHistory(a, b, cp.seqNo) || Diverge(mac, keys, keys', a, b, cp.seqNo)
  {
    HashAtAnchor(mac, keys, a, cp);
    HashAtAnchor(mac, keys', b, cp);
    AnchoredHistoryIsUnique(mac, keys, keys', a, b, cp.seqNo);
  }

  lemma HashAtAnchor(mac: Mac, keys: Option<Keyring>, rows: seq<Event>, cp: Anchor)
    requires RowsMeet(Digester(mac, keys), Some(cp), rows)
    ensures 1 <= cp.seqNo <= |rows| && PrevOf(rows, cp.seqNo) == cp.headHash
  {
    assert Links(Digester(mac, keys), rows)[cp.seqNo - 1] == Digest(mac, keys, rows[cp.seqNo - 1]);
  }
}
