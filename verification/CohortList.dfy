/** The list of a site's cohorts (internal/cohorts/cohorts.go:529-558): the same choice among
    versions as Get makes, for every cohort at once. */
module CohortList {
  import opened Common
  import opened StaticMembers
  import opened StaticCohorts

  /** One stored version of one of the site's cohorts. */
  datatype SiteRow = SiteRow(id: string, row: Cohort)

  function VersionsOf(rows: seq<SiteRow>, id: string): seq<Cohort> {
    if rows == [] then []
    else
      var last := rows[|rows| - 1];
      VersionsOf(rows[..|rows| - 1], id) + if last.id == id then [last.row] else []
  }

  /** The map holds the latest version of this id, if any was met. */
  ghost predicate Chosen(rows: seq<SiteRow>, latest: map<string, Cohort>, id: string) {
    var versions := VersionsOf(rows, id);
    if id in latest then versions != [] && latest[id] == Latest(versions) else versions == []
  }

  ghost predicate Collapsed(rows: seq<SiteRow>, latest: map<string, Cohort>) {
    forall id :: Chosen(rows, latest, id)
  }

  function Keep(latest: map<string, Cohort>, r: SiteRow): map<string, Cohort> {
    if r.id !in latest || r.row.updatedAt > latest[r.id].updatedAt then latest[r.id := r.row] else latest
  }

  lemma CollapsedStep(rows: seq<SiteRow>, latest: map<string, Cohort>, r: SiteRow)
    requires Collapsed(rows, latest)
    ensures Collapsed(rows + [r], Keep(latest, r))
  {
    forall id
      ensures Chosen(rows + [r], Keep(latest, r), id)
    {
      ChosenStep(rows, latest, r, id);
    }
  }

  lemma ChosenStep(rows: seq<SiteRow>, latest: map<string, Cohort>, r: SiteRow, id: string)
    requires Chosen(rows, latest, id)
    ensures Chosen(rows + [r], Keep(latest, r), id)
  {
    assert (rows + [r])[..|rows|] == rows;
    var before := VersionsOf(rows, id);
    if r.id == id {
      LatestOfAppend(before, r.row);
    } else {
      assert before + [] == before;
    }
  }

  /** Newest first. */
  ghost predicate NewestFirst(s: seq<SiteRow>) {
    forall i, j :: 0 <= i < j < |s| ==> s[i].row.createdAt >= s[j].row.createdAt
  }

  function Place(s: seq<SiteRow>, x: SiteRow): seq<SiteRow> {
    if s == [] || s[|s| - 1].row.createdAt >= x.row.createdAt then s + [x]
    else Place(s[..|s| - 1], x) + [s[|s| - 1]]
  }

  lemma {:induction false} PlacedOnce(s: seq<SiteRow>, x: SiteRow)
    ensures multiset(Place(s, x)) == multiset(s) + multiset{x}
  {
    if s != [] && s[|s| - 1].row.createdAt < x.row.createdAt {
      PlacedOnce(s[..|s| - 1], x);
      assert s == s[..|s| - 1] + [s[|s| - 1]];
    }
  }

  lemma {:induction false} PlacedInOrder(s: seq<SiteRow>, x: SiteRow)
    requires NewestFirst(s)
    ensures NewestFirst(Place(s, x))
  {
    if s != [] && s[|s| - 1].row.createdAt < x.row.createdAt {
      var front, last := s[..|s| - 1], s[|s| - 1];
      PlacedInOrder(front, x);
      PlacedOnce(front, x);
      forall i | 0 <= i < |Place(front, x)|
        ensures Place(front, x)[i].row.createdAt >= last.row.createdAt
      {
        assert Place(front, x)[i] in multiset(front) + multiset{x};
        assert Place(front, x)[i] == x || Place(front, x)[i] in front;
      }
    }
  }

  method Collapse(rows: seq<SiteRow>) returns (latest: map<string, Cohort>)
    ensures Collapsed(rows, latest)
  {
    latest := map[];
    for i := 0 to |rows|
      invariant Collapsed(rows[..i], latest)
    {
      var r := rows[i];
      CollapsedStep(rows[..i], latest, r);
      assert rows[..i + 1] == rows[..i] + [r];
      if r.id !in latest || r.row.updatedAt > latest[r.id].updatedAt { latest := latest[r.id := r.row]; }
    }
    assert rows[..|rows|] == rows;
  }

  /** How often a row is listed: once if it is its cohort's latest version and not a tombstone. */
  ghost predicate Listed(out: seq<SiteRow>, latest: map<string, Cohort>, rest: set<string>, r: SiteRow) {
    multiset(out)[r] == if r.id in latest && r.id !in rest && latest[r.id] == r.row && r.row.name != "" then 1 else 0
  }

  method Arrange(latest: map<string, Cohort>) returns (out: seq<SiteRow>)
    ensures NewestFirst(out) && forall r :: Listed(out, latest, {}, r)
  {
    out := [];
    var rest := latest.Keys;
    while rest != {}
      invariant rest <= latest.Keys && NewestFirst(out) && forall r :: Listed(out, latest, rest, r)
      decreases |rest|
    {
      var id :| id in rest;
      ArrangeStep(out, latest, rest, id);
      if latest[id].name != "" { out := Place(out, SiteRow(id, latest[id])); }
      rest := rest - {id};
    }
  }

  lemma ArrangeStep(out: seq<SiteRow>, latest: map<string, Cohort>, rest: set<string>, id: string)
    requires id in rest && rest <= latest.Keys && NewestFirst(out) && forall r :: Listed(out, latest, rest, r)
    ensures var next := if latest[id].name != "" then Place(out, SiteRow(id, latest[id])) else out;
      NewestFirst(next) && forall r :: Listed(next, latest, rest - {id}, r)
  {
    var x, next := SiteRow(id, latest[id]), if latest[id].name != "" then Place(out, SiteRow(id, latest[id])) else out;
    PlacedInOrder(out, x);
    PlacedOnce(out, x);
    forall r
      ensures Listed(next, latest, rest - {id}, r)
    {
      assert Listed(out, latest, rest, r);
    }
  }

  /** List. It shows exactly what Get shows, for every cohort of the site, each once and newest
      first; a cohort whose latest version is a tombstone is in neither. */
  method List(rows: seq<SiteRow>) returns (out: seq<SiteRow>)
    ensures NewestFirst(out)
    ensures forall r :: multiset(out)[r] == if Shown(VersionsOf(rows, r.id)) == Some(r.row) then 1 else 0
    ensures forall i, j :: 0 <= i < j < |out| ==>
      out[i].id != out[j].id && out[i].row.createdAt >= out[j].row.createdAt
    ensures forall r :: r in out ==>
      (r in rows && r.row.name != "" && forall x :: x in rows && x.id == r.id ==> x.row.updatedAt <= r.row.updatedAt)
    ensures forall r ::
      (r in rows && r.row.name != ""
       && forall x :: x in rows && x.id == r.id ==> x == r || x.row.updatedAt < r.row.updatedAt) ==> r in out
  {
    var latest := Collapse(rows);
    out := Arrange(latest);
    forall r
      ensures multiset(out)[r] == if Shown(VersionsOf(rows, r.id)) == Some(r.row) then 1 else 0
    {
      assert Listed(out, latest, {}, r) && Chosen(rows, latest, r.id);
    }
    ListIs(rows, out);
  }

  lemma {:induction false} VersionsAre(rows: seq<SiteRow>, id: string)
    ensures forall c :: c in VersionsOf(rows, id) <==> SiteRow(id, c) in rows
  {
    if rows != [] { VersionsAre(rows[..|rows| - 1], id); }
  }

  /** What is listed, row by row. */
  lemma ListIs(rows: seq<SiteRow>, out: seq<SiteRow>)
    requires forall r :: multiset(out)[r] == if Shown(VersionsOf(rows, r.id)) == Some(r.row) then 1 else 0
    ensures forall i, j :: 0 <= i < j < |out| ==> out[i].id != out[j].id
    ensures forall r :: r in out ==>
      (r in rows && r.row.name != "" && forall x :: x in rows && x.id == r.id ==> x.row.updatedAt <= r.row.updatedAt)
    ensures forall r ::
      (r in rows && r.row.name != ""
       && forall x :: x in rows && x.id == r.id ==> x == r || x.row.updatedAt < r.row.updatedAt) ==> r in out
  {
    forall r: SiteRow {
      VersionsAre(rows, r.id);
    }
    forall r: SiteRow
      ensures r in out <==> Shown(VersionsOf(rows, r.id)) == Some(r.row)
    {
      assert r in out <==> multiset(out)[r] > 0;
    }
    forall r | r in out
      ensures r in rows && r.row.name != ""
      ensures forall x :: x in rows && x.id == r.id ==> x.row.updatedAt <= r.row.updatedAt
    {
      Newest(rows, r.id);
    }
    forall r | r in rows && r.row.name != ""
               && forall x :: x in rows && x.id == r.id ==> x == r || x.row.updatedAt < r.row.updatedAt
      ensures r in out
    {
      Newest(rows, r.id);
      assert r.row in VersionsOf(rows, r.id);
    }
    forall i, j | 0 <= i < j < |out|
      ensures out[i].id != out[j].id
    {
      assert out[i] in out && out[j] in out;
      if out[i].id == out[j].id { TwiceListed(out, i, j); }
    }
  }

  lemma TwiceListed(out: seq<SiteRow>, i: nat, j: nat)
    requires i < j < |out| && out[i] == out[j]
    ensures multiset(out)[out[i]] >= 2
  {
    assert out == out[..j] + out[j..];
    assert out[..j][i] in multiset(out[..j]) && out[j..][0] in multiset(out[j..]);
  }

  lemma Newest(rows: seq<SiteRow>, id: string)
    ensures var s := VersionsOf(rows, id);
            s != [] ==> SiteRow(id, Latest(s)) in rows
                        && forall x :: x in rows && x.id == id ==> x.row.updatedAt <= Latest(s).updatedAt
  {
    VersionsAre(rows, id);
    assert forall x :: x in rows && x.id == id ==> x == SiteRow(id, x.row);
  }

  // ---------------------------------------------------------------- pages of members

  /** x + y on 64-bit integers. */
  function WrapAdd(x: int64, y: int64): int64 {
    if x + y > MAX_INT64 then x + y - 0x1_0000_0000_0000_0000
    else if x + y < MIN_INT64 then x + y + 0x1_0000_0000_0000_0000
    else x + y
  }

  /** Where a page starts and ends, in unbounded arithmetic. */
  function PageStart(n: nat, offset: int): nat { if offset < 0 then 0 else if offset > n then n else offset }

  function PageEnd(n: nat, limit: int, offset: int): (e: nat)
    ensures PageStart(n, offset) <= e <= n
  {
    var start := PageStart(n, offset);
    if limit <= 0 || start + limit > n then n else start + limit
  }

  /** Members, from the resolved list on: a limit so large that the sum wraps round still gives the
      rest of the list. */
  method PageOfMembers(ids: seq<string>, limit: int64, offset: int64) returns (page: seq<string>)
    requires |ids| <= MAX_INT64
    ensures page == ids[PageStart(|ids|, offset)..PageEnd(|ids|, limit, offset)]
    ensures var from: int := if offset < 0 then 0 else offset;
      && |page| == (if from >= |ids| then 0 else if 0 < limit < |ids| - from then limit as int else |ids| - from)
      && forall k :: 0 <= k < |page| ==> page[k] == ids[from + k]
  {
    var start: int64 := if offset < 0 then 0 else offset;
    if start >= |ids| { return []; }
    var end := WrapAdd(start, limit);
    if limit <= 0 || end < start || end > |ids| { end := |ids|; }
    page := ids[start..end];
  }

  function Pages(ids: seq<string>, limit: int, offset: nat): seq<string>
    requires limit > 0
    decreases |ids| - offset
  {
    if offset >= |ids| then []
    else ids[PageStart(|ids|, offset)..PageEnd(|ids|, limit, offset)] + Pages(ids, limit, offset + limit)
  }

  lemma FirstPage(ids: seq<string>, limit: int, offset: nat)
    requires limit > 0 && offset + limit < |ids|
    ensures Pages(ids, limit, offset) == ids[offset..offset + limit] + Pages(ids, limit, offset + limit)
  {
  }

  lemma BackInTwo(ids: seq<string>, i: nat, j: nat)
    requires i <= j <= |ids|
    ensures ids[i..] == ids[i..j] + ids[j..]
  {
  }

  lemma LastPages(ids: seq<string>, limit: int, offset: nat)
    requires limit > 0 && offset <= |ids| <= offset + limit
    ensures Pages(ids, limit, offset) == ids[offset..]
  {
    if offset < |ids| {
      assert Pages(ids, limit, offset + limit) == [];
      assert ids[offset..|ids|] == ids[offset..];
    }
  }

  /** Page after page is the whole list, nothing skipped and nothing twice. */
  lemma {:induction false} PagesJoin(ids: seq<string>, limit: int, offset: nat)
    requires limit > 0 && offset <= |ids|
    ensures Pages(ids, limit, offset) == ids[offset..]
    decreases |ids| - offset
  {
    hide Pages;
    if offset + limit < |ids| {
      FirstPage(ids, limit, offset);
      PagesJoin(ids, limit, offset + limit);
      BackInTwo(ids, offset, offset + limit);
    } else {
      LastPages(ids, limit, offset);
    }
  }
}
