/** Cohort rule trees (internal/cohorts/tree.go): definitions, their normal form, the checks a
    definition passes before it is evaluated, and the sets a tree denotes. */
module RuleTree {
  import opened Common

  datatype Op = Unset | And | Or | Not | Static | UnknownOp(name: string)

  datatype RuleKind = EventRule | PropertyRule | OtherRule

  datatype Operator = NoOperator | Equals | Differs | OtherOperator

  /** One condition. `window` is the raw text; an absent count is 0. */
  datatype Rule = Rule(kind: RuleKind, name: string, window: string, minCount: int, key: string,
                       operator: Operator, value: string)

  datatype Definition = Definition(op: Op, rules: seq<Rule>, children: seq<Definition>, leaf: Option<Rule>)

  datatype Node = Leaf(rule: Rule) | Group(op: Op, kids: seq<Node>)

  const MAX_DEPTH := 4
  const MAX_LEAVES := 30

  // ---------------------------------------------------------------- normal form

  /** normalize: rules become leaves, children follow them. */
  function Normalize(def: Definition): Node {
    if def.leaf.Some? then Leaf(def.leaf.value)
    else Group(if def.op == Unset then And else def.op, LeavesOf(def.rules) + NormalizeAll(def.children))
  }

  function NormalizeAll(defs: seq<Definition>): (kids: seq<Node>)
    ensures |kids| == |defs| && forall i :: 0 <= i < |defs| ==> kids[i] == Normalize(defs[i])
  {
    if defs == [] then []
    else
      assert defs == defs[..|defs| - 1] + [defs[|defs| - 1]];
      NormalizeAll(defs[..|defs| - 1]) + [Normalize(defs[|defs| - 1])]
  }

  function LeavesOf(rules: seq<Rule>): (kids: seq<Node>)
    ensures |kids| == |rules| && forall i :: 0 <= i < |rules| ==> kids[i] == Leaf(rules[i])
  {
    seq(|rules|, i requires 0 <= i < |rules| => Leaf(rules[i]))
  }

  function LeafDefinitions(rules: seq<Rule>): (defs: seq<Definition>)
    ensures |defs| == |rules|
  {
    seq(|rules|, i requires 0 <= i < |rules| => Definition(Unset, [], [], Some(rules[i])))
  }

  /** A flat definition and the tree with the same rules as leaf children are one node. */
  lemma FlatIsTree(op: Op, rules: seq<Rule>)
    ensures Normalize(Definition(op, rules, [], None)) == Normalize(Definition(op, [], LeafDefinitions(rules), None))
  {
    var flat, tree := Normalize(Definition(op, rules, [], None)),
                      Normalize(Definition(op, [], LeafDefinitions(rules), None));
    assert |flat.kids| == |tree.kids| && forall i :: 0 <= i < |rules| ==> flat.kids[i] == tree.kids[i];
  }

  // ---------------------------------------------------------------- shape

  predicate Arity(op: Op, kids: nat) {
    match op
    case And => kids > 0
    case Or => kids > 0
    case Not => kids == 1
    case _ => false
  }

  /** Known operators with the right number of children, all the way down. */
  predicate WellFormed(n: Node) {
    n.Leaf? || (Arity(n.op, |n.kids|) && forall k :: k in n.kids ==> WellFormed(k))
  }

  function Max(a: int, b: int): int { if a < b then b else a }

  /** The longest path to a leaf, in nodes. */
  function Height(n: Node): (h: nat)
    ensures h > 0
  {
    if n.Leaf? then 1 else 1 + HeightOf(n.kids)
  }

  function HeightOf(kids: seq<Node>): nat {
    if kids == [] then 0
    else
      assert kids == kids[..|kids| - 1] + [kids[|kids| - 1]];
      Max(HeightOf(kids[..|kids| - 1]), Height(kids[|kids| - 1]))
  }

  function LeafCount(n: Node): nat {
    if n.Leaf? then 1 else LeafCountOf(n.kids)
  }

  function LeafCountOf(kids: seq<Node>): nat {
    if kids == [] then 0
    else
      assert kids == kids[..|kids| - 1] + [kids[|kids| - 1]];
      LeafCountOf(kids[..|kids| - 1]) + LeafCount(kids[|kids| - 1])
  }

  predicate AllRules(n: Node, good: Rule -> bool) {
    if n.Leaf? then good(n.rule) else forall k :: k in n.kids ==> AllRules(k, good)
  }

  /** What a checked subtree at a given depth satisfies. */
  predicate Checked(n: Node, depth: nat, strict: bool, good: Rule -> bool) {
    WellFormed(n) && depth + Height(n) - 1 <= MAX_DEPTH && (strict ==> AllRules(n, good))
  }

  predicate CheckedAll(kids: seq<Node>, depth: nat, strict: bool, good: Rule -> bool) {
    forall i :: 0 <= i < |kids| ==> Checked(kids[i], depth, strict, good)
  }

  lemma {:induction false} HeightOfEach(kids: seq<Node>, h: nat)
    ensures HeightOf(kids) <= h <==> forall i :: 0 <= i < |kids| ==> Height(kids[i]) <= h
  {
    if kids != [] {
      HeightOfEach(kids[..|kids| - 1], h);
      assert forall i :: 0 <= i < |kids| - 1 ==> kids[..|kids| - 1][i] == kids[i];
    }
  }

  /** A group is checked when its operator fits and its children are checked one level down. */
  lemma CheckedGroup(n: Node, depth: nat, strict: bool, good: Rule -> bool)
    requires n.Group? && 0 < depth <= MAX_DEPTH && Arity(n.op, |n.kids|)
    ensures Checked(n, depth, strict, good) <==> CheckedAll(n.kids, depth + 1, strict, good)
  {
    HeightOfEach(n.kids, MAX_DEPTH - depth);
    if Checked(n, depth, strict, good) {
      forall i | 0 <= i < |n.kids|
        ensures Checked(n.kids[i], depth + 1, strict, good)
      {
        assert n.kids[i] in n.kids;
      }
    }
    if CheckedAll(n.kids, depth + 1, strict, good) {
      forall k | k in n.kids
        ensures WellFormed(k) && (strict ==> AllRules(k, good))
      {
        var i :| 0 <= i < |n.kids| && n.kids[i] == k;
        assert Checked(n.kids[i], depth + 1, strict, good);
      }
      forall i | 0 <= i < |n.kids|
        ensures Height(n.kids[i]) <= MAX_DEPTH - depth
      {
        assert Checked(n.kids[i], depth + 1, strict, good);
      }
    }
  }

  datatype Flaw = StaticWithRules | LeafMixed | RulesAndChildren | NestedStatic | TooDeep
                | EmptyGroup | NotArity | BadOp
                | BadLeaf | NoConditions | TooManyConditions

  /** checkNode. `good` is validateRule. The leaves met so far are counted whether or not the
      check succeeds. */
  method CheckNode(n: Node, depth: nat, leaves: nat, strict: bool, good: Rule -> bool)
      returns (flaw: Option<Flaw>, leaves': nat)
    requires depth > 0
    ensures flaw.None? <==> Checked(n, depth, strict, good)
    ensures flaw.None? ==> leaves' == leaves + LeafCount(n)
    decreases n
  {
    leaves' := leaves;
    if depth > MAX_DEPTH { return Some(TooDeep), leaves'; }
    if n.Leaf? {
      leaves' := leaves + 1;
      return if strict && !good(n.rule) then Some(BadLeaf) else None, leaves';
    }
    match n.op {
      case And | Or => if |n.kids| == 0 { return Some(EmptyGroup), leaves'; }
      case Not => if |n.kids| != 1 { return Some(NotArity), leaves'; }
      case _ => return Some(BadOp), leaves';
    }
    CheckedGroup(n, depth, strict, good);
    for i := 0 to |n.kids|
      invariant CheckedAll(n.kids[..i], depth + 1, strict, good) && leaves' == leaves + LeafCountOf(n.kids[..i])
    {
      assert n.kids[..i + 1][..i] == n.kids[..i];
      assert n.kids[i] in n.kids;
      flaw, leaves' := CheckNode(n.kids[i], depth + 1, leaves', strict, good);
      if flaw.Some? { return; }
    }
    assert n.kids[..|n.kids|] == n.kids;
    flaw := None;
  }

  /** checkMixing: no node is two shapes at once, and static stays at the top. */
  predicate Unmixed(def: Definition) {
    if def.leaf.Some? then def.op == Unset && def.rules == [] && def.children == []
    else (def.rules == [] || def.children == []) && forall c :: c in def.children ==> c.op != Static && Unmixed(c)
  }

  method CheckMixing(def: Definition) returns (flaw: Option<Flaw>)
    ensures flaw.None? <==> Unmixed(def)
    decreases def
  {
    if def.leaf.Some? {
      return if def.op != Unset || |def.rules| != 0 || |def.children| != 0 then Some(LeafMixed) else None;
    }
    if |def.rules| != 0 && |def.children| != 0 { return Some(RulesAndChildren); }
    for i := 0 to |def.children|
      invariant forall j :: 0 <= j < i ==> def.children[j].op != Static && Unmixed(def.children[j])
    {
      assert def.children[i] in def.children;
      if def.children[i].op == Static { return Some(NestedStatic); }
      flaw := CheckMixing(def.children[i]);
      if flaw.Some? { return; }
    }
    flaw := None;
  }

  /** A definition that may be evaluated. */
  predicate Shaped(def: Definition, strict: bool, good: Rule -> bool) {
    if def.op == Static then def.leaf.None? && def.rules == [] && def.children == []
    else Unmixed(def) && Checked(Normalize(def), 1, strict, good) && LeafCount(Normalize(def)) <= MAX_LEAVES
  }

  lemma {:induction false} SomeLeaf(n: Node)
    requires WellFormed(n)
    ensures LeafCount(n) > 0
    decreases n
  {
    if n.Group? {
      var last := n.kids[|n.kids| - 1];
      assert last in n.kids;
      SomeLeaf(last);
    }
  }

  lemma {:induction false} LeavesCount(rules: seq<Rule>)
    ensures LeafCountOf(LeavesOf(rules)) == |rules|
  {
    if rules != [] {
      LeavesCount(rules[..|rules| - 1]);
      assert LeavesOf(rules)[..|rules| - 1] == LeavesOf(rules[..|rules| - 1]);
    }
  }

  lemma FlatTree(op: Op, rules: seq<Rule>, good: Rule -> bool)
    ensures var n := Group(op, LeavesOf(rules));
            && Height(n) <= 2 && LeafCount(n) == |rules| && (WellFormed(n) <==> Arity(op, |rules|))
            && (AllRules(n, good) <==> forall c :: c in rules ==> good(c))
  {
    var kids := LeavesOf(rules);
    LeavesCount(rules);
    HeightOfEach(kids, 1);
    forall c | c in rules
      ensures Leaf(c) in kids
    {
      var i :| 0 <= i < |rules| && rules[i] == c;
      assert kids[i] == Leaf(c);
    }
    assert forall k :: k in kids ==> k.Leaf? && k.rule in rules;
  }

  /** A flat definition: one condition under "not", one to thirty otherwise, each of them good. */
  lemma FlatShape(def: Definition, strict: bool, good: Rule -> bool)
    requires def.leaf.None? && def.children == [] && def.op != Static
    ensures Shaped(def, strict, good) <==>
            && (match def.op
                case Not => |def.rules| == 1
                case UnknownOp(_) => false
                case _ => 1 <= |def.rules| <= 30)
            && (strict ==> forall c :: c in def.rules ==> good(c))
  {
    hide Height, LeafCount, WellFormed, AllRules, LeavesOf;
    var op := if def.op == Unset then And else def.op;
    assert LeavesOf(def.rules) + NormalizeAll(def.children) == LeavesOf(def.rules);
    assert Normalize(def) == Group(op, LeavesOf(def.rules)) && Unmixed(def);
    FlatTree(op, def.rules, good);
  }

  lemma {:induction false} FewerLeaves(kids: seq<Node>, i: nat)
    requires i < |kids|
    ensures LeafCount(kids[i]) <= LeafCountOf(kids)
  {
    if i < |kids| - 1 { FewerLeaves(kids[..|kids| - 1], i); }
  }

  /** The parts of a shaped definition are shaped. */
  lemma PartsShaped(def: Definition, strict: bool, good: Rule -> bool)
    requires Shaped(def, strict, good) && def.op != Static && def.leaf.None?
    ensures def.rules == [] || def.children == []
    ensures forall d :: d in def.children ==> d.op != Static && Shaped(d, strict, good)
  {
    forall d | d in def.children
      ensures d.op != Static && Shaped(d, strict, good)
    {
      PartShaped(def, d, strict, good);
    }
  }

  lemma PartShaped(def: Definition, d: Definition, strict: bool, good: Rule -> bool)
    requires Shaped(def, strict, good) && def.op != Static && def.leaf.None? && d in def.children
    ensures d.op != Static && Shaped(d, strict, good)
  {
    hide Height, LeafCount, Normalize, HeightOf, LeafCountOf;
    var n := Normalize(def);
    KidsOfDefinition(def);
    KidWithin(n, Normalize(d));
  }

  lemma KidWithin(n: Node, k: Node)
    requires n.Group? && k in n.kids
    ensures Height(k) < Height(n) && LeafCount(k) <= LeafCount(n)
  {
    var i :| 0 <= i < |n.kids| && n.kids[i] == k;
    HeightOfEach(n.kids, HeightOf(n.kids));
    FewerLeaves(n.kids, i);
  }

  // ---------------------------------------------------------------- shape, read off the definition

  /** A condition, or a known operator over as many parts as it takes, all conditions or all
      definitions, with no static definition inside and no more levels than these. */
  ghost predicate FitsIn(def: Definition, levels: int) {
    if def.leaf.Some? then levels >= 1 && def.op == Unset && def.rules == [] && def.children == []
    else
      && (match def.op
          case Not => |def.rules| + |def.children| == 1
          case And => |def.rules| + |def.children| > 0
          case Or => |def.rules| + |def.children| > 0
          case Unset => |def.rules| + |def.children| > 0
          case _ => false)
      && (def.rules == [] || (def.children == [] && levels >= 2))
      && forall d :: d in def.children ==> d.op != Static && FitsIn(d, levels - 1)
  }

  /** How many conditions a definition holds. */
  ghost function Conditions(def: Definition): nat {
    if def.leaf.Some? then 1 else |def.rules| + ConditionsOf(def.children)
  }

  ghost function ConditionsOf(defs: seq<Definition>): nat {
    if defs == [] then 0
    else
      assert defs == defs[..|defs| - 1] + [defs[|defs| - 1]];
      ConditionsOf(defs[..|defs| - 1]) + Conditions(defs[|defs| - 1])
  }

  ghost predicate EachCondition(def: Definition, good: Rule -> bool) {
    if def.leaf.Some? then good(def.leaf.value)
    else (forall c :: c in def.rules ==> good(c)) && forall d :: d in def.children ==> EachCondition(d, good)
  }

  lemma KidsInOrder(def: Definition)
    requires def.leaf.None? && (def.rules == [] || def.children == [])
    ensures var kids := Normalize(def).kids;
            if def.children == [] then kids == LeavesOf(def.rules) else kids == NormalizeAll(def.children)
  {
  }

  lemma {:induction false} ConditionsAre(def: Definition)
    requires Unmixed(def)
    ensures LeafCount(Normalize(def)) == Conditions(def)
    decreases def
  {
    if def.leaf.None? {
      KidsInOrder(def);
      if def.children == [] {
        LeavesCount(def.rules);
      } else {
        ConditionsOfAre(def.children);
      }
    }
  }

  lemma {:induction false} ConditionsOfAre(defs: seq<Definition>)
    requires forall d :: d in defs ==> Unmixed(d)
    ensures LeafCountOf(NormalizeAll(defs)) == ConditionsOf(defs)
    decreases defs
  {
    if defs != [] {
      var front, last := defs[..|defs| - 1], defs[|defs| - 1];
      assert defs == front + [last];
      ConditionsOfAre(front);
      ConditionsAre(last);
      assert NormalizeAll(defs)[..|defs| - 1] == NormalizeAll(front);
    }
  }

  lemma {:induction false} EachConditionIs(def: Definition, good: Rule -> bool)
    ensures AllRules(Normalize(def), good) <==> EachCondition(def, good)
    decreases def
  {
    if def.leaf.None? {
      KidsOfDefinition(def);
      forall d | d in def.children
        ensures AllRules(Normalize(d), good) <==> EachCondition(d, good)
      {
        EachConditionIs(d, good);
      }
    }
  }

  lemma KidsWellFormed(def: Definition)
    requires def.leaf.None? && (def.rules == [] || def.children == [])
    ensures WellFormed(Normalize(def)) <==>
            && Arity(Normalize(def).op, |def.rules| + |def.children|)
            && forall d :: d in def.children ==> WellFormed(Normalize(d))
  {
    hide Normalize, Arity;
    KidsOfDefinition(def);
  }

  lemma KidsHeight(def: Definition, levels: int)
    requires def.leaf.None? && (def.rules == [] || def.children == []) && (def.rules != [] || def.children != [])
    ensures Height(Normalize(def)) <= levels <==>
            (def.rules != [] ==> levels >= 2) && forall d :: d in def.children ==> Height(Normalize(d)) <= levels - 1
  {
    hide Normalize, HeightOf;
    var n := Normalize(def);
    KidsOfDefinition(def);
    assert Height(n) == 1 + HeightOf(n.kids);
    assert forall i :: 0 <= i < |n.kids| ==> n.kids[i] in n.kids && Height(n.kids[i]) >= 1;
    if levels >= 1 {
      HeightOfEach(n.kids, levels - 1);
      assert forall k :: k in n.kids ==> exists i :: 0 <= i < |n.kids| && n.kids[i] == k;
    } else {
      assert forall d :: d in def.children ==> Height(Normalize(d)) >= 1;
      assert def.children != [] ==> def.children[0] in def.children;
    }
    assert forall c :: c in def.rules ==> Height(Leaf(c)) == 1;
    assert def.rules != [] ==> Leaf(def.rules[0]) in n.kids;
  }

  /** The operator and the children of a group fit in so many levels. */
  lemma KidsFit(def: Definition, levels: int)
    requires def.leaf.None? && (def.rules == [] || def.children == []) && def.op != Static
    ensures var n := Normalize(def);
            WellFormed(n) && Height(n) <= levels <==>
            && Arity(if def.op == Unset then And else def.op, |def.rules| + |def.children|)
            && (def.rules != [] ==> levels >= 2)
            && forall d :: d in def.children ==> WellFormed(Normalize(d)) && Height(Normalize(d)) <= levels - 1
  {
    hide WellFormed, Height, Normalize;
    assert Normalize(def).op == if def.op == Unset then And else def.op by { KidsOfDefinition(def); }
    KidsWellFormed(def);
    if def.rules != [] || def.children != [] { KidsHeight(def, levels); }
  }

  lemma PartsFitIn(def: Definition, levels: int)
    requires def.leaf.None? && (def.rules == [] || def.children == []) && def.op != Static
    requires forall d :: d in def.children && d.op != Static ==>
      (FitsIn(d, levels - 1) <==> Unmixed(d) && WellFormed(Normalize(d)) && Height(Normalize(d)) <= levels - 1)
    ensures FitsIn(def, levels) <==> Unmixed(def) && WellFormed(Normalize(def)) && Height(Normalize(def)) <= levels
  {
    hide WellFormed, Height, Normalize;
    KidsFit(def, levels);
  }

  lemma LeafFits(def: Definition, levels: int)
    requires def.leaf.Some?
    ensures WellFormed(Normalize(def)) && Height(Normalize(def)) == 1
  {
  }

  lemma {:induction false} FitsInIs(def: Definition, levels: int)
    requires def.op != Static
    ensures FitsIn(def, levels) <==> Unmixed(def) && WellFormed(Normalize(def)) && Height(Normalize(def)) <= levels
    decreases def
  {
    if def.leaf.Some? {
      LeafFits(def, levels);
    } else if def.rules != [] && def.children != [] {
      hide WellFormed, Height, Normalize;
    } else {
      hide WellFormed, Height, Normalize, FitsIn, Unmixed;
      forall d | d in def.children && d.op != Static
        ensures FitsIn(d, levels - 1) <==>
                Unmixed(d) && WellFormed(Normalize(d)) && Height(Normalize(d)) <= levels - 1
      {
        FitsInIs(d, levels - 1);
      }
      PartsFitIn(def, levels);
    }
  }

  /** MAIN RESULT. What the checks let through is what fits: at most four levels, thirty conditions, and
      when the check is strict every condition good. */
  lemma ShapedIs(def: Definition, strict: bool, good: Rule -> bool)
    requires def.op != Static
    ensures Shaped(def, strict, good) <==>
            FitsIn(def, 4) && Conditions(def) <= 30 && (strict ==> EachCondition(def, good))
  {
    hide WellFormed, Height, Normalize, AllRules, LeafCount, FitsIn;
    FitsInIs(def, 4);
    if Unmixed(def) { ConditionsAre(def); }
    EachConditionIs(def, good);
  }

  /** Groups one inside the other around a single condition. */
  function Tower(groups: nat, c: Rule): Definition {
    if groups == 0 then Definition(Unset, [], [], Some(c)) else Definition(And, [], [Tower(groups - 1, c)], None)
  }

  lemma {:induction false} TowerFits(groups: nat, c: Rule, levels: int)
    ensures FitsIn(Tower(groups, c), levels) <==> groups < levels
    ensures Conditions(Tower(groups, c)) == 1 && Tower(groups, c).op != Static
  {
    if groups > 0 {
      var kid := Tower(groups - 1, c);
      TowerFits(groups - 1, c, levels - 1);
      assert [kid][..0] == [] && ConditionsOf([kid]) == ConditionsOf([]) + Conditions(kid);
    }
  }

  /** A condition may stand inside three groups and no more. */
  lemma TowerShape(groups: nat, c: Rule, good: Rule -> bool)
    ensures Shaped(Tower(groups, c), false, good) <==> groups <= 3
  {
    hide Shaped, FitsIn, Tower, Conditions;
    TowerFits(groups, c, 4);
    ShapedIs(Tower(groups, c), false, good);
  }

  /** validateDefinition: lets through exactly the shaped definitions. */
  method ValidateDefinition(def: Definition, strict: bool, good: Rule -> bool) returns (flaw: Option<Flaw>)
    ensures flaw.None? <==> Shaped(def, strict, good)
    ensures def.leaf.None? && def.children == [] && def.op != Static ==>
      (flaw.None? <==> && (match def.op
                           case Not => |def.rules| == 1
                           case UnknownOp(_) => false
                           case _ => 1 <= |def.rules| <= 30)
                       && (strict ==> forall c :: c in def.rules ==> good(c)))
    ensures def.leaf.None? && def.op != Static && flaw.None? ==>
      (def.rules == [] || def.children == [])
      && forall d :: d in def.children ==> d.op != Static && Shaped(d, strict, good)
    ensures def.leaf.Some? && def.op != Static ==>
      (flaw.None? <==> def.op == Unset && def.rules == [] && def.children == [] && (strict ==> good(def.leaf.value)))
    ensures def.op != Static ==>
      (flaw.None? <==> FitsIn(def, 4) && Conditions(def) <= 30 && (strict ==> EachCondition(def, good)))
  {
    if def.op != Static { ShapedIs(def, strict, good); }
    if def.leaf.None? && def.op != Static {
      if def.children == [] { FlatShape(def, strict, good); }
      if Shaped(def, strict, good) { PartsShaped(def, strict, good); }
    }
    if def.op == Static {
      return if def.leaf.Some? || |def.rules| != 0 || |def.children| != 0 then Some(StaticWithRules) else None;
    }
    flaw := CheckMixing(def);
    if flaw.Some? { return; }
    var n := Normalize(def);
    var leaves;
    flaw, leaves := CheckNode(n, 1, 0, strict, good);
    if flaw.Some? { return; }
    SomeLeaf(n);
    if leaves == 0 { return Some(NoConditions); }
    if leaves > MAX_LEAVES { return Some(TooManyConditions); }
  }

  // ---------------------------------------------------------------- meaning

  /** Who exists at a site, who did an event in a window and how often, and whose events carry a
      value. All sets are of identified users. */
  datatype Site = Site(universe: set<string>, counts: (string, int) -> map<string, nat>,
                       matching: (string, string) -> set<string>)

  const DEFAULT_COUNT := 1

  /** The users one condition selects; `window` is the length its window text stands for. */
  function RuleMeaning(site: Site, r: Rule, window: int): set<string> {
    match r.kind
    case EventRule =>
      var least := if r.minCount <= 0 then DEFAULT_COUNT else r.minCount;
      set id | id in site.counts(r.name, window) && site.counts(r.name, window)[id] >= least
    case PropertyRule =>
      if r.operator == Differs then site.universe - site.matching(r.key, r.value) else site.matching(r.key, r.value)
    case OtherRule => {}
  }

  /** A window text that cannot be read never gets as far as a query. */
  function LengthOf(window: Option<int>): int { if window.Some? then window.value else 0 }

  /** The users a tree selects. */
  function Meaning(site: Site, n: Node, window: string -> Option<int>): set<string> {
    match n
    case Leaf(r) => RuleMeaning(site, r, LengthOf(window(r.window)))
    case Group(op, kids) =>
      match op
      case And => AllOf(site, kids, window)
      case Or => AnyOf(site, kids, window)
      case Not => site.universe - AnyOf(site, kids, window)
      case _ => {}
  }

  function AllOf(site: Site, kids: seq<Node>, window: string -> Option<int>): set<string> {
    if kids == [] then {}
    else
      assert kids == kids[..|kids| - 1] + [kids[|kids| - 1]];
      var last := Meaning(site, kids[|kids| - 1], window);
      if |kids| == 1 then last else AllOf(site, kids[..|kids| - 1], window) * last
  }

  function AnyOf(site: Site, kids: seq<Node>, window: string -> Option<int>): set<string> {
    if kids == [] then {}
    else
      assert kids == kids[..|kids| - 1] + [kids[|kids| - 1]];
      AnyOf(site, kids[..|kids| - 1], window) + Meaning(site, kids[|kids| - 1], window)
  }

  /** Conjunction and disjunction, member by member. */
  lemma {:induction false} GroupMembers(site: Site, kids: seq<Node>, window: string -> Option<int>, id: string)
    ensures id in AnyOf(site, kids, window) <==> exists i :: 0 <= i < |kids| && id in Meaning(site, kids[i], window)
    ensures kids != [] ==>
      (id in AllOf(site, kids, window) <==> forall i :: 0 <= i < |kids| ==> id in Meaning(site, kids[i], window))
  {
    if kids != [] {
      var front := kids[..|kids| - 1];
      GroupMembers(site, front, window, id);
      assert forall i :: 0 <= i < |front| ==> front[i] == kids[i];
    }
  }

  /** What a condition selects, user by user. */
  lemma RuleMembers(site: Site, r: Rule, window: int, id: string)
    ensures r.kind == PropertyRule && r.operator == Differs ==>
      (id in RuleMeaning(site, r, window) <==> id in site.universe && id !in site.matching(r.key, r.value))
    ensures r.kind == PropertyRule && r.operator != Differs ==>
      (id in RuleMeaning(site, r, window) <==> id in site.matching(r.key, r.value))
    ensures r.kind == EventRule ==>
      (id in RuleMeaning(site, r, window) <==>
       id in site.counts(r.name, window)
       && site.counts(r.name, window)[id] >= if r.minCount > 0 then r.minCount else 1)
  {
  }

  /** What a group selects, user by user: all of its children, one of them, or not its only one. */
  lemma GroupSelects(site: Site, op: Op, kids: seq<Node>, window: string -> Option<int>, id: string)
    ensures op == And && kids != [] ==>
      (id in Meaning(site, Group(op, kids), window) <==> forall k :: k in kids ==> id in Meaning(site, k, window))
    ensures op == Or ==>
      (id in Meaning(site, Group(op, kids), window) <==> exists k :: k in kids && id in Meaning(site, k, window))
    ensures op == Not && |kids| == 1 ==>
      (id in Meaning(site, Group(op, kids), window) <==> id in site.universe && id !in Meaning(site, kids[0], window))
  {
    GroupMembers(site, kids, window, id);
    assert forall k :: k in kids <==> exists i :: 0 <= i < |kids| && kids[i] == k;
  }

  /** The same for a definition, whose children are given as definitions or as rules. */
  lemma DefinitionSelects(site: Site, def: Definition, window: string -> Option<int>, id: string)
    requires def.leaf.None? && (def.rules == [] || def.children == []) && (def.rules != [] || def.children != [])
    ensures def.op == And || def.op == Unset ==>
      (id in Meaning(site, Normalize(def), window) <==>
       && (forall d :: d in def.children ==> id in Meaning(site, Normalize(d), window))
       && (forall r :: r in def.rules ==> id in RuleMeaning(site, r, LengthOf(window(r.window)))))
    ensures def.op == Or ==>
      (id in Meaning(site, Normalize(def), window) <==>
       || (exists d :: d in def.children && id in Meaning(site, Normalize(d), window))
       || (exists r :: r in def.rules && id in RuleMeaning(site, r, LengthOf(window(r.window)))))
    ensures def.op == Not && |def.children| == 1 ==>
      (id in Meaning(site, Normalize(def), window) <==>
       id in site.universe && id !in Meaning(site, Normalize(def.children[0]), window))
    ensures def.op == Not && |def.rules| == 1 ==>
      (id in Meaning(site, Normalize(def), window) <==>
       id in site.universe && id !in RuleMeaning(site, def.rules[0], LengthOf(window(def.rules[0].window))))
  {
    hide Meaning, RuleMeaning, Normalize;
    var n := Normalize(def);
    KidsOfDefinition(def);
    GroupSelects(site, n.op, n.kids, window, id);
    forall r | r in def.rules
      ensures Meaning(site, Leaf(r), window) == RuleMeaning(site, r, LengthOf(window(r.window)))
    {
      LeafMeans(site, r, window);
    }
  }

  /** The children of a normalized definition. */
  lemma KidsOfDefinition(def: Definition)
    requires def.leaf.None?
    ensures Normalize(def).Group? && Normalize(def).op == if def.op == Unset then And else def.op
    ensures forall d :: d in def.children ==> Normalize(d) in Normalize(def).kids
    ensures forall r :: r in def.rules ==> Leaf(r) in Normalize(def).kids
    ensures forall k :: k in Normalize(def).kids ==>
      (exists d :: d in def.children && k == Normalize(d)) || (exists r :: r in def.rules && k == Leaf(r))
    ensures |Normalize(def).kids| == |def.rules| + |def.children|
  {
    var ls, ns := LeavesOf(def.rules), NormalizeAll(def.children);
    assert Normalize(def).kids == ls + ns;
    hide NormalizeAll, LeavesOf;
    assert forall i :: 0 <= i < |ls| ==> ls[i] in ls && def.rules[i] in def.rules;
    assert forall i :: 0 <= i < |ns| ==> ns[i] in ns && def.children[i] in def.children;
    forall k | k in ls + ns
      ensures (exists d :: d in def.children && k == Normalize(d)) || (exists r :: r in def.rules && k == Leaf(r))
    {
      if k in ls {
        var i :| 0 <= i < |ls| && ls[i] == k;
        assert def.rules[i] in def.rules;
      } else {
        var i :| 0 <= i < |ns| && ns[i] == k;
        assert def.children[i] in def.children;
      }
    }
  }

  lemma LeafMeans(site: Site, r: Rule, window: string -> Option<int>)
    ensures Meaning(site, Leaf(r), window) == RuleMeaning(site, r, LengthOf(window(r.window)))
  {
  }
}
