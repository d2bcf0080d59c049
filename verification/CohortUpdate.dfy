/** Cohorts as the API changes them (internal/cohorts/cohorts.go:448-658): a new definition with a
    fresh count, for rule cohorts by evaluating it and for static ones from the list. */
module CohortUpdate {
  import opened Common
  import opened StaticMembers
  import opened StaticCohorts
  import RuleTree
  import RuleEval
  import StringOrder

  /** A definition without a rule in it: all that a static cohort takes. */
  predicate Bare(def: RuleTree.Definition) {
    (def.op == RuleTree.Unset || def.op == RuleTree.Static) && def.rules == [] && def.children == [] && def.leaf.None?
  }

  /** How a rule cohort's summary must look: a definition that passes every check, and the number of
      users it denotes. */
  ghost predicate Counted(e: RuleEval.Evaluation, def: RuleTree.Definition, good: RuleTree.Rule -> bool, c: Cohort) {
    && def.op != RuleTree.Static && RuleTree.Shaped(def, true, good)
    && c.kind == RuleKind(def) && c.memberCount == |RuleEval.Denoted(e, def)|
  }

  /** Users can be counted by this rule: it passes the checks, its conditions are usable, the store answers,
      and the site has at most 200 000 users and a scan budget to match. */
  ghost predicate Countable(e: RuleEval.Evaluation, def: RuleTree.Definition, good: RuleTree.Rule -> bool) {
    && def.op != RuleTree.Static && RuleTree.Shaped(def, true, good) && RuleTree.Shaped(def, true, c => e.Usable(c))
    && e.Reliable() && RuleEval.Closed(e.site) && |e.site.universe| <= 200_000
    && (e.maxScan <= 0 || e.maxScan >= 150 * |e.site.universe|)
  }

  lemma ShapedHasRules(def: RuleTree.Definition, good: RuleTree.Rule -> bool)
    requires RuleTree.Shaped(def, true, good) && def.op != RuleTree.Static
    ensures !RuleEval.NothingToEvaluate(def)
  {
  }

  lemma EachOnce(ids: seq<string>, users: set<string>)
    requires StringOrder.StrictlyAscending(ids) && forall id :: id in ids <==> id in users
    ensures |ids| == |users|
  {
    forall i, j | 0 <= i < j < |ids|
      ensures ids[i] != ids[j]
    {
      assert StringOrder.Less(ids[i], ids[j]);
    }
    DistinctCount(ids);
    assert SetOf(ids) == users;
  }

  /** The checks of a rule and its evaluation. */
  method CountRule(e: RuleEval.Evaluation, siteId: string, def: RuleTree.Definition, good: RuleTree.Rule -> bool)
      returns (r: Result<nat, Error>)
    requires siteId != "" && e.Loaded() && e.rows == 0 && e.leaves == 0
    modifies e`ops, e`rows, e`leaves, e`universe, e`universeLoads
    ensures r.Ok? ==> def.op != RuleTree.Static && RuleTree.Shaped(def, true, good)
    ensures r.Ok? ==> r.value == |RuleEval.Denoted(e, def)|
    ensures Countable(e, def, good) ==> r.Ok?
  {
    hide RuleTree.Shaped, RuleTree.Meaning, StringOrder.StrictlyAscending;
    if def.op == RuleTree.Static { return Err(StaticOnRule); }
    var flaw := RuleTree.ValidateDefinition(def, true, good);
    if flaw.Some? { return Err(BadRule); }
    ShapedHasRules(def, good);
    var users := RuleEval.EvaluateCohort(e, siteId, def);
    if users.Err? { return Err(EvaluationFailed); }
    EachOnce(users.value, RuleEval.Denoted(e, def));
    r := Ok(|users.value|);
  }

  /** Create, under an id nobody has used. Whatever fails, a cohort that shows has a definition that
      passes every check and its exact count: a first count that fails refuses the creation. */
  method Create(s: Service, e: RuleEval.Evaluation, siteId: string, name: string, description: string,
                def: RuleTree.Definition, good: RuleTree.Rule -> bool) returns (r: Result<Cohort, Error>)
    requires s.summaries == [] && e.Loaded() && e.rows == 0 && e.leaves == 0
    modifies s`ops, s`summaries, e`ops, e`rows, e`leaves, e`universe, e`universeLoads
    ensures r.Ok? ==> Shown(s.summaries) == Some(r.value)
    ensures Shown(s.summaries).Some? ==> Counted(e, def, good, Shown(s.summaries).value)
    ensures Shown(s.summaries).Some? ==> var c, now := Shown(s.summaries).value, s.clock(old(s.ops));
      c.name == name && c.description == description && c.createdAt == c.updatedAt == now
    ensures siteId == "" || name == "" ==> r.Err? && s.summaries == []
    ensures siteId != "" && name != "" && s.Reliable() && Countable(e, def, good) ==> r.Ok?
  {
    hide RuleTree.Shaped, RuleTree.Meaning;
    if siteId == "" || name == "" { return Err(BadName); }
    var now := s.Tick();
    var count := CountRule(e, siteId, def, good);
    if count.Err? { return Err(count.error); }
    var c := Cohort(name, description, RuleKind(def), count.value, now, now);
    var ok := s.PutSummary(c);
    assert [] + [c] == [c];
    r := if ok then Ok(c) else Err(WriteFailed);
  }

  /** The count an update stores: of a static cohort's list, or of the users the new rule denotes. */
  method CountMembers(s: Service, e: RuleEval.Evaluation, siteId: string, kind: Kind, def: RuleTree.Definition,
                      good: RuleTree.Rule -> bool) returns (r: Result<nat, Error>)
    requires siteId != "" && e.Loaded() && e.rows == 0 && e.leaves == 0
    modifies s`ops, e`ops, e`rows, e`leaves, e`universe, e`universeLoads
    ensures s.ops == old(s.ops) + if kind == StaticKind && Bare(def) then 1 else 0
    ensures r.Ok? ==> Takes(kind, def, good)
    ensures r.Ok? ==> r.value == if kind == StaticKind then |Live(s.members)| else |RuleEval.Denoted(e, def)|
    ensures kind == StaticKind && s.Reliable() && Bare(def) && |s.members| <= s.RowLimit() ==> r.Ok?
    ensures kind != StaticKind && Countable(e, def, good) ==> r.Ok?
  {
    hide RuleTree.Shaped, RuleTree.Meaning, Live;
    if kind == StaticKind {
      if !Bare(def) { return Err(RuleOnStatic); }
      var live := s.ReadStatic();
      if live.Err? { return Err(live.error); }
      assert |live.value| == |live.value.Keys|;
      return Ok(|live.value|);
    }
    r := CountRule(e, siteId, def, good);
  }

  /** A new version of a cohort's summary in place of version c. */
  method Replace(s: Service, c: Cohort, edited: Cohort) returns (r: Result<Cohort, Error>)
    requires Shown(s.summaries) == Some(c) && edited.name != ""
    modifies s`ops, s`summaries
    ensures old(s.summaries) <= s.summaries && |s.summaries| <= |old(s.summaries)| + 1
    ensures forall i :: |old(s.summaries)| <= i < |s.summaries| ==>
      s.summaries[i] == edited.(updatedAt := Later(c.updatedAt, s.clock(old(s.ops))))
    ensures r.Ok? ==> r.value == edited.(updatedAt := Later(c.updatedAt, s.clock(old(s.ops))))
    ensures r.Ok? ==> s.summaries == old(s.summaries) + [r.value]
    ensures r.Ok? && c.updatedAt < MAX_INT64 ==> Shown(s.summaries) == Some(r.value)
    ensures s.Reliable() ==> r.Ok?
  {
    var at := s.NextUpdate(c);
    var next := edited.(updatedAt := at);
    var ok := s.PutSummary(next);
    LatestOfAppend(old(s.summaries), next);
    r := if ok then Ok(next) else Err(WriteFailed);
  }

  /** Update. MAIN RESULT: what is stored has the new name and description (an empty name keeps the
      old one), the exact count of its members as they now are, and a version above the one it
      replaces while there is one; a static cohort stays static and a rule cohort keeps a rule. */
  method Update(s: Service, e: RuleEval.Evaluation, siteId: string, name: string, description: string,
                def: RuleTree.Definition, good: RuleTree.Rule -> bool) returns (r: Result<Cohort, Error>)
    requires siteId != "" && e.Loaded() && e.rows == 0 && e.leaves == 0
    modifies s`ops, s`summaries, e`ops, e`rows, e`leaves, e`universe, e`universeLoads
    ensures old(s.summaries) <= s.summaries && |s.summaries| <= |old(s.summaries)| + 1
    ensures old(Shown(s.summaries)).None? ==> r.Err? && s.summaries == old(s.summaries)
    ensures r.Ok? ==> Renamed(old(Shown(s.summaries)).value, name, description, r.value)
    ensures r.Ok? ==> var was := old(Shown(s.summaries)).value;
      && r.value.name == (if name == "" then was.name else name) && r.value.description == description
      && r.value.createdAt == was.createdAt
      && (if was.kind == StaticKind
          then r.value.kind == StaticKind && def.op != RuleTree.And && def.op != RuleTree.Or && def.op != RuleTree.Not
               && !def.op.UnknownOp? && def.rules == [] && def.children == [] && def.leaf.None?
          else r.value.kind == RuleKind(def) && def.op != RuleTree.Static
               && RuleTree.FitsIn(def, 4) && RuleTree.Conditions(def) <= 30 && RuleTree.EachCondition(def, good)
               && r.value.memberCount == |RuleEval.Denoted(e, def)|)
    ensures r.Ok? && old(Shown(s.summaries)).value.kind == StaticKind ==>
      Bare(def) && r.value.kind == StaticKind && r.value.memberCount == |Live(s.members)|
    ensures r.Ok? && old(Shown(s.summaries)).value.kind != StaticKind ==> Counted(e, def, good, r.value)
    ensures r.Ok? && old(Shown(s.summaries)).value.updatedAt < MAX_INT64 ==> Shown(s.summaries) == Some(r.value)
    ensures old(Shown(s.summaries)).Some? ==>
      var was := old(Shown(s.summaries)).value;
      var now := s.clock(old(s.ops) + UpdateReads(was.kind));
      forall i :: |old(s.summaries)| <= i < |s.summaries| ==>
        s.summaries[i].name != "" && s.summaries[i].updatedAt ==
          if now > was.updatedAt then now else if was.updatedAt < MAX_INT64 then was.updatedAt + 1 else MIN_INT64
    ensures r.Ok? ==> s.summaries == old(s.summaries) + [r.value]
    ensures old(Shown(s.summaries)).Some? && !Takes(old(Shown(s.summaries)).value.kind, def, good) ==>
      r.Err? && s.summaries == old(s.summaries)
    ensures (s.Reliable() && old(Shown(s.summaries)).Some? && old(Shown(s.summaries)).value.kind == StaticKind
             && (def.op == RuleTree.Unset || def.op == RuleTree.Static)
             && def.rules == [] && def.children == [] && def.leaf.None?
             && |s.members| <= 600_000 && s.maxScan <= 0) ==> r.Ok?
    ensures (s.Reliable() && old(Shown(s.summaries)).Some? && old(Shown(s.summaries)).value.kind != StaticKind
             && Countable(e, def, good)) ==> r.Ok?
  {
    hide RuleTree.Shaped, RuleTree.Meaning, Live, RuleTree.FitsIn, RuleTree.Conditions, RuleTree.EachCondition,
         RuleEval.Denoted, Latest, Countable;
    if def.op != RuleTree.Static { RuleTree.ShapedIs(def, true, good); }
    var found := s.Get();
    if found.Err? { return Err(found.error); }
    if found.value.None? { return Err(NotFound); }
    var c := found.value.value;
    var count := CountMembers(s, e, siteId, c.kind, def, good);
    if count.Err? { return Err(count.error); }
    r := Replace(s, c, Cohort(if name == "" then c.name else name, description,
                              if c.kind == StaticKind then c.kind else RuleKind(def), count.value,
                              c.createdAt, c.updatedAt));
  }

  /** How many reads of the store an update makes before it looks at the clock. */
  function UpdateReads(kind: Kind): nat { if kind == StaticKind then 2 else 1 }

  predicate Renamed(c: Cohort, name: string, description: string, next: Cohort) {
    next.name == (if name == "" then c.name else name)
    && next.description == description && next.createdAt == c.createdAt
  }

  /** The definition may replace that of such a cohort. */
  predicate Takes(kind: Kind, def: RuleTree.Definition, good: RuleTree.Rule -> bool) {
    if kind == StaticKind then Bare(def) else def.op != RuleTree.Static && RuleTree.Shaped(def, true, good)
  }

  /** Refresh: the cohort's own definition again, for a new count. */
  method Refresh(s: Service, e: RuleEval.Evaluation, siteId: string, good: RuleTree.Rule -> bool)
      returns (r: Result<Cohort, Error>)
    requires siteId != "" && e.Loaded() && e.rows == 0 && e.leaves == 0
    modifies s`ops, s`summaries, e`ops, e`rows, e`leaves, e`universe, e`universeLoads
    ensures r.Ok? ==> old(Shown(s.summaries)).Some? && SameCohort(old(Shown(s.summaries)).value, r.value)
    ensures r.Ok? ==> var was := old(Shown(s.summaries)).value;
      r.value.updatedAt == Later(was.updatedAt, s.clock(old(s.ops) + 1 + UpdateReads(was.kind)))
    ensures r.Ok? && r.value.kind == StaticKind ==> r.value.memberCount == |Live(s.members)|
    ensures r.Ok? && r.value.kind.RuleKind? ==> r.value.memberCount == |RuleEval.Denoted(e, r.value.kind.rule)|
    ensures old(Shown(s.summaries)).None? ==> r.Err? && s.summaries == old(s.summaries)
    ensures (s.Reliable() && old(Shown(s.summaries)).Some? && old(Shown(s.summaries)).value.kind == StaticKind
             && |s.members| <= 600_000 && s.maxScan <= 0) ==> r.Ok?
    ensures (s.Reliable() && old(Shown(s.summaries)).Some? && old(Shown(s.summaries)).value.kind.RuleKind?
             && Countable(e, old(Shown(s.summaries)).value.kind.rule, good)) ==> r.Ok?
  {
    hide RuleTree.Shaped, RuleTree.Meaning, Live, Countable, RuleTree.FitsIn, RuleTree.Conditions,
         RuleTree.EachCondition, RuleEval.Denoted, Latest, Counted, Takes;
    var found := s.Get();
    if found.Err? { return Err(found.error); }
    if found.value.None? { return Err(NotFound); }
    var c := found.value.value;
    match c.kind {
      case UnreadableRule => r := Err(BadRule);
      case StaticKind =>
        r := Update(s, e, siteId, c.name, c.description, RuleTree.Definition(RuleTree.Static, [], [], None), good);
      case RuleKind(def) =>
        r := Update(s, e, siteId, c.name, c.description, def, good);
    }
    if r.Ok? {
      assert s.summaries[|s.summaries| - 1] == r.value;
      SameFields(c, r.value);
    }
  }

  lemma SameFields(a: Cohort, b: Cohort)
    requires a.name == b.name && a.description == b.description && a.kind == b.kind && a.createdAt == b.createdAt
    ensures SameCohort(a, b)
  {
  }

  /** An update of any outcome, then a deletion that succeeds: the cohort is hidden, while its version
      and the clock are short of the end of 64 bits. */
  method UpdateThenDelete(s: Service, e: RuleEval.Evaluation, siteId: string, name: string, description: string,
                          def: RuleTree.Definition, good: RuleTree.Rule -> bool) returns (r: Result<(), Error>)
    requires siteId != "" && e.Loaded() && e.rows == 0 && e.leaves == 0
    modifies s`ops, s`summaries, e`ops, e`rows, e`leaves, e`universe, e`universeLoads
    ensures (&& r.Ok? && old(Shown(s.summaries)).Some? && old(Shown(s.summaries)).value.updatedAt < MAX_INT64 - 1
             && s.clock(old(s.ops) + UpdateReads(old(Shown(s.summaries)).value.kind)) < MAX_INT64) ==>
      Shown(s.summaries).None?
  {
    hide RuleTree.Shaped, RuleTree.Meaning, Live, Latest;
    ghost var was := Shown(s.summaries);
    var _ := Update(s, e, siteId, name, description, def, good);
    if was.Some? { ShownAfter(old(s.summaries), s.summaries); }
    r := s.Delete();
  }

  /** The cohort shown after a store got at most one more version of it. */
  lemma ShownAfter(before: seq<Cohort>, after: seq<Cohort>)
    requires before <= after && |after| <= |before| + 1 && Shown(before).Some?
    requires forall i :: |before| <= i < |after| ==> after[i].name != ""
    ensures Shown(after) == Shown(before)
            || (|after| == |before| + 1 && Shown(after) == Some(after[|before|]))
  {
    if after != before {
      assert after == before + [after[|before|]];
      LatestOfAppend(before, after[|before|]);
    }
  }

  /** Once deleted, no operation brings a cohort back: each leaves the store as it was. */
  method AfterDelete(s: Service, e: RuleEval.Evaluation, siteId: string, name: string, description: string,
                     def: RuleTree.Definition, good: RuleTree.Rule -> bool, ids: seq<string>, trim: string -> string,
                     adds: bool, removes: bool, updates: bool)
    requires Shown(s.summaries).None? && siteId != "" && e.Loaded() && e.rows == 0 && e.leaves == 0
    modifies s`ops, s`members, s`summaries, e`ops, e`rows, e`leaves, e`universe, e`universeLoads
    ensures Shown(s.summaries).None? && s.members == old(s.members) && s.summaries == old(s.summaries)
  {
    hide RuleTree.Shaped, RuleTree.Meaning, Live;
    if adds { var _ := s.AddMembers(ids, trim); }
    if removes { var _ := s.RemoveMembers(ids, trim); }
    if updates {
      var _ := Update(s, e, siteId, name, description, def, good);
    } else {
      var _ := Refresh(s, e, siteId, good);
    }
    var _ := s.Delete();
  }
}
