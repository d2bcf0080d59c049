/** Static cohort membership as versioned rows (internal/cohorts/static.go:61-241): the id list a
    caller sends, and the collapse of stored rows to live members. */
module StaticMembers {
  import opened Common

  const MAX_MEMBERS := 100_000
  const MAX_ID_LEN := 256
  const MAX_INT64 := 0x7fff_ffff_ffff_ffff
  const MIN_INT64 := -0x8000_0000_0000_0000

  type int64 = x: int | MIN_INT64 <= x <= MAX_INT64

  // ---------------------------------------------------------------- ids

  predicate ValidId(id: string) {
    |id| <= MAX_ID_LEN && forall i :: 0 <= i < |id| ==> id[i] as int >= 0x20 && id[i] as int != 0x7f
  }

  lemma ValidIdMeans(id: string)
    ensures ValidId(id) <==> |id| <= 256 && forall c :: c in id ==> ' ' <= c && c != 0x7f as char
  {
    assert forall i :: 0 <= i < |id| ==> id[i] in id;
  }

  /** The trimmed ids that are not blank, each at its first place. */
  function Distinct(ids: seq<string>, trim: string -> string): seq<string> {
    if ids == [] then []
    else
      var before, id := Distinct(ids[..|ids| - 1], trim), trim(ids[|ids| - 1]);
      if id == "" || id in before then before else before + [id]
  }

  ghost predicate AllValid(ids: seq<string>, trim: string -> string) {
    forall i :: 0 <= i < |ids| ==> trim(ids[i]) == "" || ValidId(trim(ids[i]))
  }

  lemma {:induction false} DistinctIs(ids: seq<string>, trim: string -> string)
    ensures NoRepeats(Distinct(ids, trim))
    ensures forall x :: x in Distinct(ids, trim) <==> x != "" && exists i :: 0 <= i < |ids| && trim(ids[i]) == x
  {
    if ids != [] {
      var front := ids[..|ids| - 1];
      DistinctIs(front, trim);
      forall x
        ensures x in Distinct(ids, trim) <==> x != "" && exists i :: 0 <= i < |ids| && trim(ids[i]) == x
      {
        if x != "" && trim(ids[|ids| - 1]) != x {
          assert forall i :: 0 <= i < |front| ==> front[i] == ids[i];
        }
      }
    }
  }

  /** Ids stay in the order in which they were first seen. */
  lemma DistinctGrows(ids: seq<string>, n: nat, trim: string -> string)
    requires n <= |ids|
    ensures Distinct(ids[..n], trim) <= Distinct(ids, trim)
    decreases |ids|
  {
    if n == |ids| {
      assert ids[..n] == ids;
    } else {
      assert ids[..|ids| - 1][..n] == ids[..n];
      DistinctGrows(ids[..|ids| - 1], n, trim);
    }
  }

  lemma DistinctStep(ids: seq<string>, i: nat, trim: string -> string)
    requires i <= |ids|
    ensures i == 0 ==> Distinct(ids[..i], trim) == []
    ensures i < |ids| ==>
      var before, id := Distinct(ids[..i], trim), trim(ids[i]);
      Distinct(ids[..i + 1], trim) == if id == "" || id in before then before else before + [id]
  {
    if i < |ids| { assert ids[..i + 1][..i] == ids[..i]; }
  }

  /** What the list of distinct ids is, and when all of them are valid. */
  lemma NormalizedIs(ids: seq<string>, trim: string -> string)
    ensures NoRepeats(Distinct(ids, trim))
    ensures forall x :: x in Distinct(ids, trim) <==> x != "" && exists i :: 0 <= i < |ids| && trim(ids[i]) == x
    ensures forall n :: 0 <= n <= |ids| ==> Distinct(ids[..n], trim) <= Distinct(ids, trim)
    ensures AllValid(ids, trim) ==>
      forall x :: x in Distinct(ids, trim) ==> |x| <= 256 && forall c :: c in x ==> ' ' <= c && c != 0x7f as char
    ensures (forall i :: 0 <= i < |ids| ==>
               |trim(ids[i])| <= 256 && forall c :: c in trim(ids[i]) ==> ' ' <= c && c != 0x7f as char) ==>
      AllValid(ids, trim)
  {
    DistinctIs(ids, trim);
    hide Distinct, ValidId, NoRepeats;
    forall n | 0 <= n <= |ids|
      ensures Distinct(ids[..n], trim) <= Distinct(ids, trim)
    {
      DistinctGrows(ids, n, trim);
    }
    forall id {
      ValidIdMeans(id);
    }
  }

  datatype IdError = BadId | TooManyIds

  /** NormalizeIDs: refuses an id that is too long or holds a control character, and a list of more
      than MAX_MEMBERS distinct ids, as soon as it meets one. `trim` is strings.TrimSpace. */
  method NormalizeIds(ids: seq<string>, trim: string -> string) returns (r: Result<seq<string>, IdError>)
    ensures r.Ok? <==> AllValid(ids, trim) && |Distinct(ids, trim)| <= MAX_MEMBERS
    ensures r.Ok? ==> r.value == Distinct(ids, trim)
    ensures r.Ok? ==> NoRepeats(r.value) && |r.value| <= 100_000
    ensures r.Ok? ==> forall x :: x in r.value <==> x != "" && exists i :: 0 <= i < |ids| && trim(ids[i]) == x
    ensures r.Ok? ==> forall n :: 0 <= n <= |ids| ==> Distinct(ids[..n], trim) <= r.value
    ensures r == Err(BadId) ==> exists i :: 0 <= i < |ids| && trim(ids[i]) != "" && !ValidId(trim(ids[i]))
    ensures r == Err(TooManyIds) ==> |Distinct(ids, trim)| > 100_000
    ensures r.Ok? ==> forall x :: x in r.value ==> |x| <= 256 && forall c :: c in x ==> ' ' <= c && c != 0x7f as char
    ensures (forall i :: 0 <= i < |ids| ==>
               |trim(ids[i])| <= 256 && forall c :: c in trim(ids[i]) ==> ' ' <= c && c != 0x7f as char) ==>
      r != Err(BadId)
  {
    NormalizedIs(ids, trim);
    hide Distinct, ValidId, NoRepeats;
    assert Distinct(ids[..0], trim) == [] by { DistinctStep(ids, 0, trim); }
    var seen: set<string> := {};
    var out := [];
    for i := 0 to |ids|
      invariant out == Distinct(ids[..i], trim) && seen == SetOf(out) && |out| <= MAX_MEMBERS
      invariant forall j :: 0 <= j < i ==> trim(ids[j]) == "" || ValidId(trim(ids[j]))
    {
      DistinctStep(ids, i, trim);
      var id := trim(ids[i]);
      if id != "" {
        if !ValidId(id) { return Err(BadId); }
        if id !in seen {
          if |out| >= MAX_MEMBERS {
            assert Distinct(ids[..i + 1], trim) <= Distinct(ids, trim);
            return Err(TooManyIds);
          }
          seen, out := seen + {id}, out + [id];
        }
      }
    }
    assert ids[..|ids|] == ids;
    r := Ok(out);
  }

  // ---------------------------------------------------------------- stored rows

  datatype MemberRow = MemberRow(id: string, addedAt: int64, removed: int64, version: int64)

  predicate Beats(a: MemberRow, b: MemberRow) {
    a.version > b.version || (a.version == b.version && a.removed > b.removed)
  }

  /** No stored row about the same id beats r. */
  ghost predicate Winning(rows: seq<MemberRow>, r: MemberRow) {
    r in rows && forall s :: s in rows && s.id == r.id ==> !Beats(s, r)
  }

  /** The ids whose winning row is not a tombstone. */
  ghost function Live(rows: seq<MemberRow>): set<string> {
    set r | r in rows && Winning(rows, r) && r.removed == 0 && r.id != "" :: r.id
  }

  /** Membership does not depend on the order of the rows, nor on repetitions of them. */
  lemma LiveIgnoresOrder(a: seq<MemberRow>, b: seq<MemberRow>)
    requires forall r :: r in a <==> r in b
    ensures Live(a) == Live(b)
  {
    forall r
      ensures Winning(a, r) <==> Winning(b, r)
    {
    }
  }

  /** collapseMembers: one pass keeping the best row of each id, then the ids that are live, with
      the time they were added. */
  method CollapseMembers(rows: seq<MemberRow>) returns (live: map<string, int64>)
    ensures live.Keys == Live(rows)
    ensures forall id :: id in live <==> id != "" && exists r ::
      r in rows && r.id == id && r.removed == 0
      && forall s :: s in rows && s.id == id ==> s.version < r.version || (s.version == r.version && s.removed <= 0)
    ensures forall id :: id in live ==>
      exists r :: Winning(rows, r) && r.id == id && r.removed == 0 && r.addedAt == live[id]
  {
    var best: map<string, MemberRow> := map[];
    for i := 0 to |rows|
      invariant Best(rows[..i], best)
    {
      var r := rows[i];
      BestStep(rows[..i], best, r);
      assert rows[..i + 1] == rows[..i] + [r];
      if r.id !in best || Beats(r, best[r.id]) { best := best[r.id := r]; }
    }
    assert rows[..|rows|] == rows;
    live := map id | id in best && best[id].removed == 0 && id != "" :: best[id].addedAt;
    BestIsLive(rows, best);
    forall id | id in live
      ensures exists r :: Winning(rows, r) && r.id == id && r.removed == 0 && r.addedAt == live[id]
    {
      assert Winning(rows, best[id]);
    }
  }

  ghost predicate Best(rows: seq<MemberRow>, best: map<string, MemberRow>) {
    && (forall r :: r in rows ==> r.id in best)
    && (forall id :: id in best ==> best[id].id == id && Winning(rows, best[id]))
  }

  lemma BestStep(rows: seq<MemberRow>, best: map<string, MemberRow>, r: MemberRow)
    requires Best(rows, best)
    ensures Best(rows + [r], if r.id !in best || Beats(r, best[r.id]) then best[r.id := r] else best)
  {
    var next := if r.id !in best || Beats(r, best[r.id]) then best[r.id := r] else best;
    forall id | id in next
      ensures next[id].id == id && Winning(rows + [r], next[id])
    {
      assert id != r.id ==> Winning(rows, best[id]);
    }
  }

  lemma BestIsLive(rows: seq<MemberRow>, best: map<string, MemberRow>)
    requires Best(rows, best)
    ensures Live(rows) == set id | id in best && best[id].removed == 0 && id != ""
  {
    forall id | id in Live(rows)
      ensures id in best && best[id].removed == 0
    {
      var r :| r in rows && Winning(rows, r) && r.removed == 0 && r.id == id;
      assert Winning(rows, best[id]);
      assert !Beats(best[id], r) && !Beats(r, best[id]);
    }
    forall id | id in best && best[id].removed == 0 && id != ""
      ensures id in Live(rows)
    {
      assert Winning(rows, best[id]);
    }
  }

  // ---------------------------------------------------------------- a batch at a new version

  /** One cohort_members write before it has a version. */
  datatype Edit = Edit(id: string, addedAt: int64, removed: int64)

  function Records(edits: seq<Edit>, version: int64): (rows: seq<MemberRow>)
    ensures |rows| == |edits|
    ensures forall i :: 0 <= i < |rows| ==>
      rows[i] == MemberRow(edits[i].id, edits[i].addedAt, edits[i].removed, version)
  {
    seq(|edits|, i requires 0 <= i < |edits| => MemberRow(edits[i].id, edits[i].addedAt, edits[i].removed, version))
  }

  function EditIds(edits: seq<Edit>): set<string> { set e | e in edits :: e.id }

  ghost predicate Above(rows: seq<MemberRow>, version: int) {
    forall r :: r in rows ==> r.version < version
  }

  ghost predicate UniformEdits(edits: seq<Edit>, removed: int64) {
    (forall i :: 0 <= i < |edits| ==> edits[i].removed == removed && edits[i].id != "")
  }

  /** Rows at a version above all stored ones decide their ids, and leave every other id alone. */
  lemma BatchDecides(rows: seq<MemberRow>, edits: seq<Edit>, version: int64, removed: int64)
    requires Above(rows, version) && UniformEdits(edits, removed)
    ensures Live(rows + Records(edits, version)) ==
      if removed == 0 then Live(rows) + EditIds(edits) else Live(rows) - EditIds(edits)
  {
    var all, batch := rows + Records(edits, version), Records(edits, version);
    forall r | r in batch
      ensures Winning(all, r)
    {
    }
    forall id
      ensures id in Live(all) <==> if id in EditIds(edits) then removed == 0 else id in Live(rows)
    {
      if id in EditIds(edits) {
        InBatch(rows, edits, version, removed, id);
      } else {
        NotInBatch(rows, edits, version, id);
      }
    }
  }

  lemma InBatch(rows: seq<MemberRow>, edits: seq<Edit>, version: int64, removed: int64, id: string)
    requires Above(rows, version) && UniformEdits(edits, removed) && id in EditIds(edits)
    ensures id in Live(rows + Records(edits, version)) <==> removed == 0
  {
    var all, batch := rows + Records(edits, version), Records(edits, version);
    var i :| 0 <= i < |edits| && edits[i].id == id;
    var mine := batch[i];
    assert mine in all && Winning(all, mine);
    forall r | r in all && r.id == id && Winning(all, r)
      ensures r.removed == removed
    {
      assert !Beats(mine, r);
    }
  }

  lemma NotInBatch(rows: seq<MemberRow>, edits: seq<Edit>, version: int64, id: string)
    requires id !in EditIds(edits)
    ensures id in Live(rows + Records(edits, version)) <==> id in Live(rows)
  {
    var all, batch := rows + Records(edits, version), Records(edits, version);
    assert forall r :: r in batch ==> r.id in EditIds(edits);
    forall r: MemberRow | r.id == id
      ensures Winning(all, r) <==> Winning(rows, r)
    {
      assert r in all <==> r in rows;
    }
  }
}
