/** Evaluating a rule tree with bounded queries and bounded set algebra
    (internal/cohorts/tree.go:215-346, cohorts.go:145-390, guard.go:56-73). */
module RuleEval {
  import opened Common
  import opened StringOrder
  import opened RuleTree

  const MAX_LEAF_ROWS := 200_000
  const MAX_EVAL_SET := 1_000_000

  datatype Error = Refused(flaw: Flaw) | StaticNotEvaluated | QueryFailed | OverBudget | TooLarge | BadRule | InvalidOp

  // ---------------------------------------------------------------- set algebra

  method IntersectSets(a: set<string>, b: set<string>) returns (out: set<string>)
    ensures out == a * b
  {
    if |b| < |a| {
      out := KeepCommon(b, a);
      assert b * a == a * b;
    } else {
      out := KeepCommon(a, b);
    }
  }

  method KeepCommon(small: set<string>, large: set<string>) returns (out: set<string>)
    ensures out == small * large
  {
    out := {};
    var rest := small;
    while rest != {}
      invariant rest <= small && out == (small - rest) * large
      decreases |rest|
    {
      var id :| id in rest;
      assert (small - (rest - {id})) * large == (small - rest) * large + (if id in large then {id} else {});
      if id in large { out := out + {id}; }
      rest := rest - {id};
    }
    assert small - rest == small;
  }

  lemma UnionCount(a: set<string>, b: set<string>)
    ensures |a + b| == |a| + |b - a| && |b - a| <= |b|
  {
    assert a + b == a + (b - a);
    assert b == (b - a) + (b * a);
  }

  lemma OneLess(rest: set<string>, a: set<string>, id: string)
    requires id in rest
    ensures |rest - a| == |rest - {id} - a| + if id in a then 0 else 1
  {
    assert rest - a == (rest - {id} - a) + if id in a then {} else {id};
  }

  /** How many ids of b are not in a. */
  method CountMissing(a: set<string>, b: set<string>) returns (n: nat)
    ensures n == |b - a|
  {
    n := 0;
    var rest := b;
    while rest != {}
      invariant rest <= b && n + |rest - a| == |b - a|
      decreases |rest|
    {
      var id :| id in rest;
      OneLess(rest, a, id);
      if id !in a { n := n + 1; }
      rest := rest - {id};
    }
  }

  /** unionSets: refuses exactly when the union is over the limit, never on the mere sum of sizes. */
  method UnionSets(a: set<string>, b: set<string>) returns (r: Option<set<string>>)
    ensures r.None? <==> |a + b| > MAX_EVAL_SET
    ensures r.Some? ==> r.value == a + b
  {
    UnionCount(a, b);
    if |a| + |b| > MAX_EVAL_SET {
      var n := CountMissing(a, b);
      if |a| + n > MAX_EVAL_SET { return None; }
    }
    r := Some(a + b);
  }

  method DifferenceSets(a: set<string>, b: set<string>) returns (out: set<string>)
    ensures out == a - b && |out| <= |a|
  {
    out := {};
    var rest := a;
    while rest != {}
      invariant rest <= a && out == (a - rest) - b
      decreases |rest|
    {
      var id :| id in rest;
      if id !in b { out := out + {id}; }
      rest := rest - {id};
    }
    assert a == (a - b) + (a * b);
  }

  // ---------------------------------------------------------------- what an evaluation scans

  /** The rows the queries of a condition come to, none of them refused. */
  function RuleCost(site: Site, r: Rule, window: string -> Option<int>): nat {
    match r.kind
    case EventRule => |site.counts(r.name, LengthOf(window(r.window)))|
    case PropertyRule => |site.matching(r.key, r.value)| + if r.operator == Differs then |site.universe| else 0
    case OtherRule => 0
  }

  function Cost(site: Site, n: Node, window: string -> Option<int>): nat {
    match n
    case Leaf(r) => RuleCost(site, r, window)
    case Group(op, kids) => CostOf(site, kids, window) + if op == Not then |site.universe| else 0
  }

  function CostOf(site: Site, kids: seq<Node>, window: string -> Option<int>): nat {
    if kids == [] then 0
    else
      assert kids == kids[..|kids| - 1] + [kids[|kids| - 1]];
      CostOf(site, kids[..|kids| - 1], window) + Cost(site, kids[|kids| - 1], window)
  }

  // ---------------------------------------------------------------- one evaluation

  /** One EvaluateCohort call against an unchanging site. `windowOf` is checkedWindow. */
  class Evaluation {
    const site: Site
    const maxScan: int            // 0 or less: no budget
    const maxWindow: int          // 0 or less: no limit
    const windowOf: string -> Option<int>
    const allowedKey: string -> bool
    const fails: nat -> bool
    var ops: nat
    var rows: nat                 // accounted so far
    var leaves: nat               // leaf conditions evaluated
    var universeLoads: nat        // made for "not" nodes
    var universe: Option<set<string>>

    constructor (site: Site, maxScan: int, maxWindow: int, windowOf: string -> Option<int>, allowedKey: string -> bool,
                 fails: nat -> bool)
      ensures this.site == site && this.maxScan == maxScan && this.maxWindow == maxWindow && this.windowOf == windowOf
      ensures this.allowedKey == allowedKey && this.fails == fails
      ensures ops == 0 && rows == 0 && leaves == 0 && Loaded()
    {
      this.site, this.maxScan, this.maxWindow, this.windowOf, this.allowedKey, this.fails :=
        site, maxScan, maxWindow, windowOf, allowedKey, fails;
      ops, rows, leaves, universeLoads, universe := 0, 0, 0, 0, None;
    }

    /** The universe was loaded for the tree once, or not at all. */
    ghost predicate Loaded()
      reads this
    {
      if universe.Some? then universeLoads == 1 && universe.value == site.universe && |site.universe| <= MAX_LEAF_ROWS
      else universeLoads == 0
    }

    /** The most rows a query of this evaluation returns without refusal. */
    function RowLimit(): int { if 0 < maxScan < MAX_LEAF_ROWS then maxScan else MAX_LEAF_ROWS }

    ghost predicate Reliable() { forall n :: !fails(n) }

    /** None of the queries since number `from` failed. */
    ghost predicate Answered(from: nat)
      reads this`ops
    {
      from <= ops && forall n :: from <= n < ops ==> !fails(n)
    }

    /** The scan budget still covers so many rows. */
    ghost predicate Affords(cost: nat)
      reads this
    {
      maxScan > 0 ==> rows + cost <= maxScan
    }

    /** Is what has been accounted within the scan budget? */
    ghost predicate WithinBudget()
      reads this
    {
      maxScan > 0 ==> rows <= maxScan
    }

    method AccountRows(n: nat) returns (ok: bool)
      modifies this`rows
      ensures rows == old(rows) + n && (ok <==> WithinBudget())
    {
      rows := rows + n;
      ok := !(maxScan > 0 && rows > maxScan);
    }

    /** A query with a LIMIT one past the row limit: it returns the whole answer, or some part of
        it that is longer than the limit. */
    method Query(answer: set<string>) returns (r: Option<set<string>>)
      modifies this`ops
      ensures ops == old(ops) + 1 && (r.Some? <==> !fails(old(ops)))
      ensures r.Some? ==> if |answer| <= RowLimit() then r.value == answer else |r.value| == RowLimit() + 1
    {
      var failed := fails(ops);
      ops := ops + 1;
      if failed { return None; }
      var out, rest := {}, answer;
      while rest != {} && |out| <= RowLimit()
        invariant out + rest == answer && out !! rest && |out| <= RowLimit() + 1
        decreases |rest|
      {
        var id :| id in rest;
        out, rest := out + {id}, rest - {id};
      }
      if rest != {} { assert |answer| == |out| + |rest|; }
      r := Some(out);
    }

    /** Query, account, and refuse an overrun: an answer that comes back is the whole answer. */
    method Bounded(answer: set<string>) returns (r: Result<set<string>, Error>)
      modifies this`ops, this`rows
      ensures r.Ok? ==> r.value == answer && |answer| <= MAX_LEAF_ROWS && WithinBudget() && rows == old(rows) + |answer|
      ensures r.Err? ==> r.error != InvalidOp
      ensures old(ops) <= ops && (r.Ok? ==> Answered(old(ops)))
      ensures old(rows) <= rows <= old(rows) + |answer|
      ensures Reliable() && old(Affords(|answer|)) && |answer| <= MAX_LEAF_ROWS ==> r.Ok?
    {
      var got := Query(answer);
      if got.None? { return Err(QueryFailed); }
      var ok := AccountRows(|got.value|);
      if !ok { return Err(OverBudget); }
      if |got.value| > MAX_LEAF_ROWS { return Err(TooLarge); }
      r := Ok(got.value);
    }

    /** The condition names what it asks for, in a window and of a key that are allowed. */
    predicate Usable(r: Rule) {
      match r.kind
      case EventRule =>
        r.name != "" && windowOf(r.window).Some? && (maxWindow > 0 ==> windowOf(r.window).value <= maxWindow)
      case PropertyRule => r.key != "" && allowedKey(r.key) && r.operator != OtherOperator
      case OtherRule => false
    }

    /** The condition is usable, and what it asks for is within the leaf limit. */
    predicate RuleFeasible(r: Rule) {
      && Usable(r)
      && match r.kind
         case EventRule => |site.counts(r.name, LengthOf(windowOf(r.window)))| <= MAX_LEAF_ROWS
         case _ =>
           |site.matching(r.key, r.value)| <= MAX_LEAF_ROWS
           && (r.operator == Differs ==> |site.universe| <= MAX_LEAF_ROWS)
    }

    /** Every condition of the tree is, and no union is over the set limit. */
    ghost predicate Feasible(n: Node) {
      match n
      case Leaf(r) => RuleFeasible(r)
      case Group(op, kids) =>
        && (forall k :: k in kids ==> Feasible(k))
        && match op
           case And => true
           case Or => |AnyOf(site, kids, windowOf)| <= MAX_EVAL_SET
           case Not => |kids| == 1 && |site.universe| <= MAX_LEAF_ROWS
           case _ => false
    }

    method EvalEventRule(r: Rule) returns (s: Result<set<string>, Error>)
      requires r.kind == EventRule
      modifies this`ops, this`rows
      ensures s.Ok? ==>
        s.value == RuleMeaning(site, r, LengthOf(windowOf(r.window))) && |s.value| <= MAX_LEAF_ROWS && WithinBudget()
      ensures s.Ok? ==> Usable(r)
      ensures old(ops) <= ops && (s.Ok? ==> Answered(old(ops)))
      ensures s.Err? ==> s.error != InvalidOp
      ensures old(rows) <= rows <= old(rows) + RuleCost(site, r, windowOf)
      ensures Reliable() && RuleFeasible(r) && old(Affords(RuleCost(site, r, windowOf))) ==> s.Ok?
    {
      if r.name == "" { return Err(BadRule); }
      var least := if r.minCount <= 0 then 1 else r.minCount;
      var w := windowOf(r.window);
      if w.None? || (maxWindow > 0 && w.value > maxWindow) { return Err(BadRule); }
      var counts := site.counts(r.name, w.value);
      var ids := Bounded(counts.Keys);
      if ids.Err? { return ids; }
      var out := set id | id in ids.value && counts[id] >= least;
      assert ids.value == out + (ids.value - out);
      s := Ok(out);
    }

    method EvalPropertyRule(r: Rule) returns (s: Result<set<string>, Error>)
      requires r.kind == PropertyRule
      modifies this`ops, this`rows
      ensures s.Ok? ==>
        s.value == RuleMeaning(site, r, LengthOf(windowOf(r.window))) && |s.value| <= MAX_LEAF_ROWS && WithinBudget()
      ensures s.Ok? ==> Usable(r)
      ensures old(ops) <= ops && (s.Ok? ==> Answered(old(ops)))
      ensures s.Err? ==> s.error != InvalidOp
      ensures old(rows) <= rows <= old(rows) + RuleCost(site, r, windowOf)
      ensures Reliable() && RuleFeasible(r) && old(Affords(RuleCost(site, r, windowOf))) ==> s.Ok?
    {
      if r.key == "" || !allowedKey(r.key) || r.operator == OtherOperator { return Err(BadRule); }
      var matched := Bounded(site.matching(r.key, r.value));
      if matched.Err? || r.operator != Differs { return matched; }
      var all := Bounded(site.universe);
      if all.Err? { return all; }
      var out := DifferenceSets(all.value, matched.value);
      s := Ok(out);
    }

    method EvalRule(r: Rule) returns (s: Result<set<string>, Error>)
      modifies this`ops, this`rows, this`leaves
      ensures s.Ok? ==>
        s.value == RuleMeaning(site, r, LengthOf(windowOf(r.window))) && |s.value| <= MAX_LEAF_ROWS && WithinBudget()
      ensures s.Ok? ==> Usable(r)
      ensures old(ops) <= ops && (s.Ok? ==> Answered(old(ops)))
      ensures s.Err? ==> s.error != InvalidOp
      ensures old(rows) <= rows <= old(rows) + RuleCost(site, r, windowOf) && leaves == old(leaves) + 1
      ensures Reliable() && RuleFeasible(r) && old(Affords(RuleCost(site, r, windowOf))) ==> s.Ok?
    {
      leaves := leaves + 1;
      match r.kind
      case EventRule => s := EvalEventRule(r);
      case PropertyRule => s := EvalPropertyRule(r);
      case OtherRule => s := Err(BadRule);
    }

    /** The complement base of "not" nodes, loaded at most once. */
    method Universe() returns (s: Result<set<string>, Error>)
      requires Loaded()
      modifies this`ops, this`rows, this`universe, this`universeLoads
      ensures universeLoads <= 1 && old(rows) <= rows <= old(rows) + |site.universe|
      ensures s.Ok? ==> Loaded() && s.value == site.universe && |s.value| <= MAX_LEAF_ROWS
      ensures Reliable() && old(Affords(|site.universe|)) && |site.universe| <= MAX_LEAF_ROWS ==> s.Ok?
      ensures s.Ok? && old(WithinBudget()) ==> WithinBudget()
      ensures old(ops) <= ops && (s.Ok? ==> Answered(old(ops)))
      ensures s.Err? ==> s.error != InvalidOp
    {
      if universe.Some? { return Ok(universe.value); }
      universeLoads := universeLoads + 1;
      s := Bounded(site.universe);
      if s.Ok? { universe := Some(s.value); }
    }

    /** What every evaluation of a node keeps. */
    twostate predicate Accounted(n: Node)
      reads this
    {
      && universeLoads <= 1 && old(rows) <= rows <= old(rows) + Cost(site, n, windowOf)
      && old(leaves) <= leaves <= old(leaves) + LeafCount(n)
    }

    twostate predicate AccountedAll(kids: seq<Node>)
      reads this
    {
      && universeLoads <= 1 && old(rows) <= rows <= old(rows) + CostOf(site, kids, windowOf)
      && old(leaves) <= leaves <= old(leaves) + LeafCountOf(kids)
    }

    /** evalNode. MAIN RESULT: an answer is exactly the set the tree denotes, short cuts included;
        it and every set on the way is bounded, no more leaves run than the tree has, and a
        well-formed tree never ends in an invalid-operator error. */
    method EvalNode(n: Node) returns (s: Result<set<string>, Error>)
      requires Loaded() && WithinBudget()
      modifies this`ops, this`rows, this`leaves, this`universe, this`universeLoads
      ensures Accounted(n)
      ensures s.Ok? ==> s.value == Meaning(site, n, windowOf) && |s.value| <= MAX_EVAL_SET && Loaded() && WithinBudget()
      ensures s.Ok? && n.Leaf? ==> Usable(n.rule)
      ensures old(ops) <= ops && (s.Ok? ==> Answered(old(ops)))
      ensures s.Ok? && n.Group? && n.op == Not ==> |n.kids| == 1 && forall id :: id in s.value <==>
        id in site.universe && id !in Meaning(site, n.kids[0], windowOf)
      ensures WellFormed(n) ==> s != Err(InvalidOp)
      ensures Reliable() && Feasible(n) && old(Affords(Cost(site, n, windowOf))) ==> s.Ok?
      decreases n, 0
    {
      if n.Leaf? {
        s := EvalRule(n.rule);
        return;
      }
      match n.op
      case And =>
        if |n.kids| == 0 { return Ok({}); }
        s := EvalAnd(n.kids);
      case Or =>
        s := EvalOr(n.kids);
      case Not =>
        if |n.kids| != 1 { return Err(InvalidOp); }
        OneKid(site, n.kids, windowOf);
        s := EvalNot(n.kids[0]);
      case _ =>
        s := Err(InvalidOp);
    }

    method EvalNot(kid: Node) returns (s: Result<set<string>, Error>)
      requires Loaded() && WithinBudget()
      modifies this`ops, this`rows, this`leaves, this`universe, this`universeLoads
      ensures universeLoads <= 1 && old(rows) <= rows <= old(rows) + Cost(site, kid, windowOf) + |site.universe|
      ensures old(leaves) <= leaves <= old(leaves) + LeafCount(kid)
      ensures (&& Reliable() && Feasible(kid) && |site.universe| <= MAX_LEAF_ROWS
               && old(Affords(Cost(site, kid, windowOf) + |site.universe|))) ==> s.Ok?
      ensures s.Ok? ==> s.value == site.universe - Meaning(site, kid, windowOf) && |s.value| <= MAX_EVAL_SET
      ensures s.Ok? ==> Loaded() && WithinBudget()
      ensures old(ops) <= ops && (s.Ok? ==> Answered(old(ops)))
      ensures WellFormed(kid) ==> s != Err(InvalidOp)
      decreases kid, 1
    {
      s := EvalNode(kid);
      if s.Err? { return; }
      var all := Universe();
      if all.Err? { return all; }
      var out := DifferenceSets(all.value, s.value);
      s := Ok(out);
    }

    /** Conjunction stops at the first empty intersection. */
    method EvalAnd(kids: seq<Node>) returns (s: Result<set<string>, Error>)
      requires Loaded() && WithinBudget() && kids != []
      modifies this`ops, this`rows, this`leaves, this`universe, this`universeLoads
      ensures AccountedAll(kids)
      ensures Reliable() && (forall k :: k in kids ==> Feasible(k)) && old(Affords(CostOf(site, kids, windowOf))) ==>
        s.Ok?
      ensures s.Ok? ==>
        s.value == AllOf(site, kids, windowOf) && |s.value| <= MAX_EVAL_SET && Loaded() && WithinBudget()
      ensures (forall k :: k in kids ==> WellFormed(k)) ==> s != Err(InvalidOp)
      ensures old(ops) <= ops && (s.Ok? ==> Answered(old(ops)))
      decreases kids, 1
    {
      hide AllOf, AnyOf, CostOf, LeafCountOf, Meaning, Cost, LeafCount, Feasible, WellFormed;
      var acc := {};
      NoKids(site, kids, windowOf);
      for i := 0 to |kids|
        invariant Answered(old(ops))
        invariant Loaded() && WithinBudget() && |acc| <= MAX_EVAL_SET && AccountedAll(kids[..i])
        invariant i > 0 ==> acc == AllOf(site, kids[..i], windowOf)
      {
        assert kids[i] in kids;
        NextKid(site, kids, i, windowOf);
        s := EvalNode(kids[i]);
        PartsGrow(site, kids, i + 1, windowOf);
        if s.Err? { return; }
        if i == 0 {
          acc := s.value;
        } else {
          var both := IntersectSets(acc, s.value);
          SmallerSet(both, acc);
          acc := both;
        }
        if |acc| == 0 {
          assert acc == {};
          StaysEmpty(site, kids, i + 1, windowOf);
          return Ok({});
        }
      }
      assert kids[..|kids|] == kids;
      s := Ok(acc);
    }

    method EvalOr(kids: seq<Node>) returns (s: Result<set<string>, Error>)
      requires Loaded() && WithinBudget()
      modifies this`ops, this`rows, this`leaves, this`universe, this`universeLoads
      ensures AccountedAll(kids)
      ensures (Reliable() && (forall k :: k in kids ==> Feasible(k)) && |AnyOf(site, kids, windowOf)| <= MAX_EVAL_SET
               && old(Affords(CostOf(site, kids, windowOf)))) ==> s.Ok?
      ensures s.Ok? ==>
        s.value == AnyOf(site, kids, windowOf) && |s.value| <= MAX_EVAL_SET && Loaded() && WithinBudget()
      ensures (forall k :: k in kids ==> WellFormed(k)) ==> s != Err(InvalidOp)
      ensures old(ops) <= ops && (s.Ok? ==> Answered(old(ops)))
      decreases kids, 1
    {
      hide AllOf, AnyOf, CostOf, LeafCountOf, Meaning, Cost, LeafCount, Feasible, WellFormed;
      var acc := {};
      NoKids(site, kids, windowOf);
      for i := 0 to |kids|
        invariant Answered(old(ops))
        invariant Loaded() && WithinBudget() && |acc| <= MAX_EVAL_SET && AccountedAll(kids[..i])
        invariant acc == AnyOf(site, kids[..i], windowOf)
      {
        assert kids[i] in kids;
        NextKid(site, kids, i, windowOf);
        s := EvalNode(kids[i]);
        PartsGrow(site, kids, i + 1, windowOf);
        if s.Err? { return; }
        var either := UnionSets(acc, s.value);
        if either.None? {
          UnionsGrow(site, kids, i + 1, windowOf);
          return Err(TooLarge);
        }
        acc := either.value;
      }
      assert kids[..|kids|] == kids;
      s := Ok(acc);
    }
  }

  lemma OneKid(site: Site, kids: seq<Node>, window: string -> Option<int>)
    requires |kids| == 1
    ensures AnyOf(site, kids, window) == Meaning(site, kids[0], window) && LeafCountOf(kids) == LeafCount(kids[0])
    ensures kids[0] in kids
    ensures CostOf(site, kids, window) == Cost(site, kids[0], window)
  {
    assert kids[..0] == [];
  }

  lemma NoKids(site: Site, kids: seq<Node>, window: string -> Option<int>)
    ensures AnyOf(site, kids[..0], window) == {} && CostOf(site, kids[..0], window) == 0 == LeafCountOf(kids[..0])
  {
  }

  /** What one more child adds. */
  lemma NextKid(site: Site, kids: seq<Node>, i: nat, window: string -> Option<int>)
    requires i < |kids|
    ensures CostOf(site, kids[..i + 1], window) == CostOf(site, kids[..i], window) + Cost(site, kids[i], window)
    ensures LeafCountOf(kids[..i + 1]) == LeafCountOf(kids[..i]) + LeafCount(kids[i])
    ensures AnyOf(site, kids[..i + 1], window) == AnyOf(site, kids[..i], window) + Meaning(site, kids[i], window)
    ensures AllOf(site, kids[..i + 1], window) ==
            if i == 0 then Meaning(site, kids[i], window)
            else AllOf(site, kids[..i], window) * Meaning(site, kids[i], window)
  {
    assert kids[..i + 1][..i] == kids[..i] && kids[..i + 1][i] == kids[i];
  }

  lemma SmallerSet(a: set<string>, b: set<string>)
    requires a <= b
    ensures |a| <= |b|
  {
    assert b == a + (b - a);
  }

  lemma {:induction false} PartsGrow(site: Site, kids: seq<Node>, n: nat, window: string -> Option<int>)
    requires n <= |kids|
    ensures LeafCountOf(kids[..n]) <= LeafCountOf(kids) && CostOf(site, kids[..n], window) <= CostOf(site, kids, window)
    decreases |kids|
  {
    if n == |kids| {
      assert kids[..n] == kids;
    } else {
      assert kids[..|kids| - 1][..n] == kids[..n];
      PartsGrow(site, kids[..|kids| - 1], n, window);
    }
  }

  lemma {:induction false} UnionsGrow(site: Site, kids: seq<Node>, n: nat, window: string -> Option<int>)
    requires n <= |kids|
    ensures AnyOf(site, kids[..n], window) <= AnyOf(site, kids, window)
    ensures |AnyOf(site, kids[..n], window)| <= |AnyOf(site, kids, window)|
    decreases |kids|
  {
    if n == |kids| {
      assert kids[..n] == kids;
    } else {
      assert kids[..|kids| - 1][..n] == kids[..n];
      UnionsGrow(site, kids[..|kids| - 1], n, window);
      SmallerSet(AnyOf(site, kids[..n], window), AnyOf(site, kids, window));
    }
  }

  /** An empty intersection stays empty. */
  lemma {:induction false} StaysEmpty(site: Site, kids: seq<Node>, n: nat, window: string -> Option<int>)
    requires 0 < n <= |kids| && AllOf(site, kids[..n], window) == {}
    ensures AllOf(site, kids, window) == {}
    decreases |kids|
  {
    if n == |kids| {
      assert kids[..n] == kids;
    } else {
      assert kids[..|kids| - 1][..n] == kids[..n];
      StaysEmpty(site, kids[..|kids| - 1], n, window);
    }
  }

  // ---------------------------------------------------------------- a whole definition

  lemma AscendingWithoutRepeats(s: seq<string>, t: seq<string>)
    requires Ascending(t) && multiset(s) == multiset(t) && forall x :: multiset(s)[x] <= 1
    ensures StrictlyAscending(t)
  {
    forall i, j | 0 <= i < j < |t|
      ensures Less(t[i], t[j])
    {
      TwiceThere(t, i, j);
    }
  }

  lemma TwiceThere(t: seq<string>, i: nat, j: nat)
    requires i < j < |t|
    ensures t[i] == t[j] ==> multiset(t)[t[i]] >= 2
  {
    assert t == t[..j] + t[j..];
    assert multiset(t)[t[i]] == multiset(t[..j])[t[i]] + multiset(t[j..])[t[i]];
    assert t[..j][i] in multiset(t[..j]) && t[j..][0] in multiset(t[j..]);
  }

  /** idSet.sorted. */
  method Sorted(ids: set<string>) returns (out: seq<string>)
    ensures StrictlyAscending(out) && forall x :: x in out <==> x in ids
  {
    var list, rest := [], ids;
    while rest != {}
      invariant rest <= ids && forall x :: x in list <==> x in ids - rest
      invariant forall x :: multiset(list)[x] <= 1
      decreases |rest|
    {
      var id :| id in rest;
      assert id !in list;
      rest, list := rest - {id}, list + [id];
    }
    SortKeeps(list);
    SortMembers(list);
    AscendingWithoutRepeats(list, Sort(list));
    out := Sort(list);
  }

  /** The users a definition denotes. */
  function Denoted(e: Evaluation, def: Definition): set<string> { Meaning(e.site, Normalize(def), e.windowOf) }

  /** The users one condition denotes. */
  function Picked(e: Evaluation, r: Rule): set<string> { RuleMeaning(e.site, r, LengthOf(e.windowOf(r.window))) }

  predicate NothingToEvaluate(def: Definition) { def.rules == [] && def.children == [] && def.leaf.None? }

  /** A user is in every part of a definition. */
  ghost predicate InEach(e: Evaluation, def: Definition, id: string) {
    (forall d :: d in def.children ==> id in Denoted(e, d)) && (forall c :: c in def.rules ==> id in Picked(e, c))
  }

  /** A user is in some part of a definition. */
  ghost predicate InSome(e: Evaluation, def: Definition, id: string) {
    (exists d :: d in def.children && id in Denoted(e, d)) || (exists c :: c in def.rules && id in Picked(e, c))
  }

  lemma AnsweredByLeaf(e: Evaluation, def: Definition)
    requires def.leaf.Some?
    ensures Normalize(def) == Leaf(def.leaf.value) && Denoted(e, def) == Picked(e, def.leaf.value)
    ensures var c := def.leaf.value;
            c.kind == PropertyRule ==> forall id :: id in Denoted(e, def) <==>
              if c.operator == Differs then id in e.site.universe && id !in e.site.matching(c.key, c.value)
              else id in e.site.matching(c.key, c.value)
    ensures var c := def.leaf.value;
            c.kind == EventRule && e.windowOf(c.window).Some? ==>
              var counts := e.site.counts(c.name, e.windowOf(c.window).value);
              forall id :: id in Denoted(e, def) <==>
                id in counts && counts[id] >= if c.minCount > 0 then c.minCount else 1
  {
    forall id {
      RuleMembers(e.site, def.leaf.value, LengthOf(e.windowOf(def.leaf.value.window)), id);
    }
  }

  lemma AnsweredByParts(e: Evaluation, def: Definition)
    requires Shaped(def, false, _ => true) && def.op != Static && !NothingToEvaluate(def) && def.leaf.None?
    ensures match def.op
            case Not => forall id :: id in Denoted(e, def) <==> (id in e.site.universe && !InSome(e, def, id))
            case Or => forall id :: id in Denoted(e, def) <==> InSome(e, def, id)
            case _ => forall id :: id in Denoted(e, def) <==> InEach(e, def, id)
  {
    KidsOfDefinition(def);
    assert def.op == Not ==> |def.rules| + |def.children| == 1;
    assert def.op == And || def.op == Or || def.op == Not || def.op == Unset;
    hide Meaning, RuleMeaning, Normalize, WellFormed, Denoted, InSome, InEach;
    forall id {
      UserByParts(e, def, id);
    }
  }

  lemma UserByParts(e: Evaluation, def: Definition, id: string)
    requires def.leaf.None? && (def.rules == [] || def.children == []) && !NothingToEvaluate(def)
    requires def.op == And || def.op == Or || def.op == Not || def.op == Unset
    requires def.op == Not ==> |def.rules| + |def.children| == 1
    ensures match def.op
            case Not => id in Denoted(e, def) <==> (id in e.site.universe && !InSome(e, def, id))
            case Or => id in Denoted(e, def) <==> InSome(e, def, id)
            case _ => id in Denoted(e, def) <==> InEach(e, def, id)
  {
    hide Meaning, RuleMeaning, Normalize;
    DefinitionSelects(e.site, def, e.windowOf, id);
    if def.op == Not {
      assert |def.children| == 1 ==> (InSome(e, def, id) <==> id in Denoted(e, def.children[0]));
      assert |def.rules| == 1 ==> (InSome(e, def, id) <==> id in Picked(e, def.rules[0]));
    }
  }

  /** EvaluateCohort. MAIN RESULT: an answer lists exactly the users the definition denotes, each
      once: those in all of its parts, in some part, or known to the site and not in its one part;
      for a condition, those with a matching event, without one, or with enough events. At most 30
      conditions ran, the universe was loaded for the tree at most once, and the scan budget holds; a
      definition of the wrong shape is refused before any query. */
  method EvaluateCohort(e: Evaluation, siteId: string, def: Definition) returns (r: Result<seq<string>, Error>)
    requires e.Loaded() && e.rows == 0 && e.leaves == 0
    modifies e`ops, e`rows, e`leaves, e`universe, e`universeLoads
    ensures r.Ok? && siteId != "" && !NothingToEvaluate(def) ==>
      StrictlyAscending(r.value) && forall id :: id in r.value <==> id in Denoted(e, def)
    ensures r.Ok? && siteId != "" && def.leaf.Some? && def.leaf.value.kind == PropertyRule ==>
      var c := def.leaf.value;
      forall id :: id in r.value <==>
        if c.operator == Differs then id in e.site.universe && id !in e.site.matching(c.key, c.value)
        else id in e.site.matching(c.key, c.value)
    ensures r.Ok? && siteId != "" && def.leaf.Some? && def.leaf.value.kind == EventRule ==>
      var c := def.leaf.value;
      e.windowOf(c.window).Some? && var counts := e.site.counts(c.name, e.windowOf(c.window).value);
      forall id :: id in r.value <==> id in counts && counts[id] >= if c.minCount > 0 then c.minCount else 1
    ensures r.Ok? && siteId != "" && !NothingToEvaluate(def) && def.leaf.None? ==>
      match def.op
      case Not => forall id :: id in r.value <==> (id in e.site.universe && !InSome(e, def, id))
      case Or => forall id :: id in r.value <==> InSome(e, def, id)
      case _ => forall id :: id in r.value <==> InEach(e, def, id)
    ensures siteId == "" || (def.op != Static && NothingToEvaluate(def)) ==> r == Ok([])
    ensures r.Ok? ==> e.Answered(old(e.ops))
    ensures e.leaves <= MAX_LEAVES && e.universeLoads <= 1 && (r.Ok? ==> e.WithinBudget())
    ensures siteId != "" && def.op != Static && !NothingToEvaluate(def) && !Shaped(def, false, _ => true) ==>
      r.Err? && r.error.Refused? && e.leaves == 0 && e.rows == 0
    ensures r != Err(InvalidOp)
    ensures (e.Reliable() && siteId != "" && def.op != Static && Shaped(def, false, _ => true)
             && e.Feasible(Normalize(def)) && old(e.Affords(Cost(e.site, Normalize(def), e.windowOf)))) ==> r.Ok?
    // On a site of at most 200 000 users every definition of usable conditions is answered, without a
    // scan budget or with one of a hundred and fifty rows a user.
    ensures (e.Reliable() && siteId != "" && def.op != Static && Shaped(def, true, c => e.Usable(c))
             && (e.maxScan <= 0 || e.maxScan >= 150 * |e.site.universe|)
             && Closed(e.site) && |e.site.universe| <= 200_000) ==> r.Ok?
  {
    hide Meaning, RuleMeaning, Shaped, Normalize, Cost;
    if siteId == "" { return Ok([]); }
    if def.op == Static { return Err(StaticNotEvaluated); }
    if NothingToEvaluate(def) { return Ok([]); }
    var any := _ => true;
    var flaw := ValidateDefinition(def, false, any);
    AnyRuleWill(def, any, _ => true);
    if Shaped(def, true, c => e.Usable(c)) && Closed(e.site) && |e.site.universe| <= 200_000 {
      SmallIsFeasible(e, def);
      SmallIsCheap(e, def);
      StrictIsShaped(def, c => e.Usable(c), any);
    }
    if flaw.Some? { return Err(Refused(flaw.value)); }
    ShapedTree(def, false, any);
    var members := e.EvalNode(Normalize(def));
    if members.Err? { return Err(members.error); }
    if def.leaf.None? { AnsweredByParts(e, def); } else { AnsweredByLeaf(e, def); }
    var out := Sorted(members.value);
    r := Ok(out);
  }

  lemma OneMoreShare(x: nat, m: nat, u: nat)
    requires x >= 1
    ensures x * (m * u) + u <= x * ((m + 1) * u) && x * (m * u) <= x * ((m + 1) * u)
  {
    assert (m + 1) * u == m * u + u && x * (m * u + u) == x * (m * u) + x * u;
    assert x * u >= u;
  }

  lemma SumOfShares(x: nat, y: nat, b: nat)
    ensures x * b + y * b == (x + y) * b
  {
  }

  lemma RuleIsCheap(e: Evaluation, c: Rule)
    requires Closed(e.site)
    ensures RuleCost(e.site, c, e.windowOf) <= 2 * |e.site.universe|
  {
    var counts := e.site.counts(c.name, LengthOf(e.windowOf(c.window)));
    assert |counts| == |counts.Keys|;
    SmallerSet(counts.Keys, e.site.universe);
    SmallerSet(e.site.matching(c.key, c.value), e.site.universe);
  }

  /** A tree of m levels scans at most m + 1 times the site for each of its conditions. */
  lemma {:induction false} NodeIsCheap(e: Evaluation, n: Node, m: nat)
    requires WellFormed(n) && Closed(e.site) && Height(n) <= m
    ensures LeafCount(n) >= 1 && Cost(e.site, n, e.windowOf) <= LeafCount(n) * ((m + 1) * |e.site.universe|)
    decreases n
  {
    var u := |e.site.universe|;
    match n
    case Leaf(c) =>
      RuleIsCheap(e, c);
      TwoShares(m, u);
    case Group(op, kids) =>
      HeightOfEach(kids, m - 1);
      forall i | 0 <= i < |kids|
        ensures Cost(e.site, kids[i], e.windowOf) <= LeafCount(kids[i]) * (m * u)
      {
        NodeIsCheap(e, kids[i], m - 1);
      }
      KidsAreCheap(e, kids, m * u);
      SomeLeaf(n);
      OneMoreShare(LeafCountOf(kids), m, u);
  }

  lemma TwoShares(m: nat, u: nat)
    requires m >= 1
    ensures 2 * u <= 1 * ((m + 1) * u)
  {
  }

  lemma {:induction false} KidsAreCheap(e: Evaluation, kids: seq<Node>, b: nat)
    requires forall i :: 0 <= i < |kids| ==> Cost(e.site, kids[i], e.windowOf) <= LeafCount(kids[i]) * b
    ensures CostOf(e.site, kids, e.windowOf) <= LeafCountOf(kids) * b
  {
    if kids != [] {
      hide LeafCount, Cost;
      var front, last := kids[..|kids| - 1], kids[|kids| - 1];
      assert kids == front + [last];
      KidsAreCheap(e, front, b);
      SumOfShares(LeafCountOf(front), LeafCount(last), b);
    }
  }

  lemma SmallIsCheap(e: Evaluation, def: Definition)
    requires Shaped(def, true, c => e.Usable(c)) && def.op != Static && Closed(e.site)
    ensures Cost(e.site, Normalize(def), e.windowOf) <= 150 * |e.site.universe|
  {
    hide Cost;
    ShapedTree(def, true, c => e.Usable(c));
    ShapedLevels(def, true, c => e.Usable(c));
    NodeIsCheap(e, Normalize(def), 4);
    ThirtyShares(LeafCount(Normalize(def)), |e.site.universe|);
  }

  lemma ShapedLevels(def: Definition, strict: bool, good: Rule -> bool)
    requires Shaped(def, strict, good) && def.op != Static
    ensures Height(Normalize(def)) <= 4
  {
  }

  lemma ThirtyShares(x: nat, u: nat)
    requires x <= 30
    ensures x * ((4 + 1) * u) <= 150 * u
  {
    assert (30 - x) * (5 * u) >= 0;
    assert x * (5 * u) + (30 - x) * (5 * u) == 30 * (5 * u);
  }

  lemma StrictIsShaped(def: Definition, f: Rule -> bool, g: Rule -> bool)
    ensures Shaped(def, true, f) ==> Shaped(def, false, g)
  {
  }

  /** Whoever did an event or matches a property is among the identified users. */
  ghost predicate Closed(site: Site) {
    && (forall name, w :: site.counts(name, w).Keys <= site.universe)
    && (forall k, v :: site.matching(k, v) <= site.universe)
  }

  lemma ShapedTree(def: Definition, strict: bool, good: Rule -> bool)
    requires Shaped(def, strict, good) && def.op != Static
    ensures WellFormed(Normalize(def)) && LeafCount(Normalize(def)) <= MAX_LEAVES
    ensures strict ==> AllRules(Normalize(def), good)
  {
  }

  lemma SmallIsFeasible(e: Evaluation, def: Definition)
    requires Shaped(def, true, c => e.Usable(c)) && def.op != Static
    requires Closed(e.site) && |e.site.universe| <= 200_000
    ensures e.Feasible(Normalize(def))
  {
    ShapedTree(def, true, c => e.Usable(c));
    SmallNodeIsFeasible(e, Normalize(def));
  }

  lemma {:induction false} SmallNodeIsFeasible(e: Evaluation, n: Node)
    requires WellFormed(n) && AllRules(n, c => e.Usable(c)) && Closed(e.site) && |e.site.universe| <= 200_000
    ensures e.Feasible(n) && Meaning(e.site, n, e.windowOf) <= e.site.universe
    decreases n
  {
    match n
    case Leaf(c) =>
      var counts := e.site.counts(c.name, LengthOf(e.windowOf(c.window)));
      assert |counts| == |counts.Keys|;
      SmallerSet(counts.Keys, e.site.universe);
      SmallerSet(e.site.matching(c.key, c.value), e.site.universe);
    case Group(op, kids) =>
      forall k | k in kids
        ensures e.Feasible(k) && Meaning(e.site, k, e.windowOf) <= e.site.universe
      {
        SmallNodeIsFeasible(e, k);
      }
      assert forall i :: 0 <= i < |kids| ==> kids[i] in kids;
      forall id | id in Meaning(e.site, n, e.windowOf)
        ensures id in e.site.universe
      {
        GroupMembers(e.site, kids, e.windowOf, id);
        assert kids[0] in kids;
      }
      if op == Or { SmallerSet(AnyOf(e.site, kids, e.windowOf), e.site.universe); }
  }

  /** Without strict leaves, the check of a rule does not matter. */
  lemma AnyRuleWill(def: Definition, f: Rule -> bool, g: Rule -> bool)
    ensures Shaped(def, false, f) <==> Shaped(def, false, g)
  {
  }
}
