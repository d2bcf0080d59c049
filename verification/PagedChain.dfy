/** Paging along a chain (internal/audit/audit.go:331-438), for any kind of row of which the
    verifier learns a Link: on a table that stands still, and on one that grows meanwhile. */
module PagedChain {
  import opened Common
  import opened KeysetPages
  import opened ChainWalk
  import opened FirstBreak

  function KeyOf<T>(link: T -> Link): T -> int { x => link(x).seqNo }

  function Links<T>(link: T -> Link, rows: seq<T>): (r: seq<Link>)
    ensures |r| == |rows|
    ensures forall i :: 0 <= i < |rows| ==> r[i] == link(rows[i])
  {
    seq(|rows|, i requires 0 <= i < |rows| => link(rows[i]))
  }

  ghost predicate ValidRows<T>(link: T -> Link, rows: seq<T>) { ValidLinks(Links(link, rows)) }

  ghost predicate RowsMeet<T>(link: T -> Link, cp: Option<Anchor>, rows: seq<T>) { AnchorHolds(cp, Links(link, rows)) }

  function InOrder<T>(link: T -> Link, table: seq<T>): seq<T> { SortBy(KeyOf(link), table) }

  /** The page query of the verifier. */
  function Fetch<T>(link: T -> Link, rows: seq<T>, last: int, through: int): seq<T> {
    Page(KeyOf(link), rows, last, through, PAGE_SIZE + 1)
  }

  /** The highest number in the table, 0 if it is empty. */
  function Head<T>(link: T -> Link, rows: seq<T>): (h: int)
    ensures forall i :: 0 <= i < |rows| ==> link(rows[i]).seqNo <= h
    ensures if rows == [] then h == 0 else exists i :: 0 <= i < |rows| && link(rows[i]).seqNo == h
  {
    if rows == [] then 0
    else
      var rest, last := Head(link, rows[..|rows| - 1]), link(rows[|rows| - 1]).seqNo;
      assert forall i :: 0 <= i < |rows| - 1 ==> rows[i] == rows[..|rows| - 1][i];
      if |rows| == 1 || rest < last then last else rest
  }

  ghost predicate AllPositive<T>(link: T -> Link, rows: seq<T>) {
    forall i :: 0 <= i < |rows| ==> link(rows[i]).seqNo > 0
  }

  ghost predicate NoDuplicates<T>(link: T -> Link, table: seq<T>) { Distinct(KeyOf(link), InOrder(link, table)) }

  /** Every page query sees the rows the snapshot saw, in some order. */
  ghost predicate Still<T>(table: seq<T>, view: nat -> seq<T>) {
    forall k: nat :: SameRows(view(k), table)
  }

  ghost predicate SeesChain<T(!new)>(link: T -> Link, rows: seq<T>, chain: seq<T>) {
    exists later :: SameRows(rows, later) && chain <= later && Numbered(KeyOf(link), later)
  }

  /** The snapshot held `chain`, and every page query sees it with later rows appended. */
  ghost predicate Grows<T(!new)>(link: T -> Link, table: seq<T>, view: nat -> seq<T>, chain: seq<T>) {
    && SameRows(table, chain) && ValidRows(link, chain)
    && forall k: nat :: SeesChain(link, view(k), chain)
  }

  /** One pass over all rows in order: what paging must amount to. */
  function OnePass<T>(link: T -> Link, cp: Option<Anchor>, table: seq<T>): Report {
    match WalkRows(cp, START, Links(link, InOrder(link, table)))
    case Broken(count, at, why) => BrokenReport(Head(link, table), count, at, why)
    case Going(w) => Conclude(cp, w, Head(link, table))
  }

  // ---------------------------------------------------------------- valid chains as tables

  lemma ValidIsNumbered<T>(link: T -> Link, rows: seq<T>)
    requires ValidRows(link, rows)
    ensures Numbered(KeyOf(link), rows)
  {
    forall i | 0 <= i < |rows|
      ensures KeyOf(link)(rows[i]) == i + 1
    {
      assert Fits(Links(link, rows), i);
    }
  }

  lemma NumberedBounds<T>(link: T -> Link, table: seq<T>, chain: seq<T>, x: T)
    requires SameRows(table, chain) && Numbered(KeyOf(link), chain) && x in table
    ensures 1 <= link(x).seqNo <= |chain|
  {
    SameMembers(table, chain, x);
    var i :| 0 <= i < |chain| && chain[i] == x;
    assert KeyOf(link)(chain[i]) == i + 1;
  }

  /** A numbered arrangement of a table fixes its head and its order. */
  lemma NumberedTable<T>(link: T -> Link, table: seq<T>, chain: seq<T>)
    requires SameRows(table, chain) && Numbered(KeyOf(link), chain)
    ensures AllPositive(link, table) && Head(link, table) == |chain| && InOrder(link, table) == chain
  {
    forall i | 0 <= i < |table|
      ensures 1 <= link(table[i]).seqNo <= |chain|
    {
      NumberedBounds(link, table, chain, table[i]);
    }
    SameLength(table, chain);
    if chain != [] {
      var top := chain[|chain| - 1];
      assert KeyOf(link)(top) == |chain|;
      SameMembers(table, chain, top);
    }
    SortKeeps(KeyOf(link), table);
    NumberedIsSorted(KeyOf(link), chain, 0, |chain|);
    assert chain[0..|chain|] == chain;
    SortedIsUnique(KeyOf(link), InOrder(link, table), chain);
  }

  /** A still table whose order is a valid chain is a special case of a growing one. */
  lemma StillValidGrows<T(!new)>(link: T -> Link, table: seq<T>, view: nat -> seq<T>)
    requires Still(table, view) && ValidRows(link, InOrder(link, table))
    ensures Grows(link, table, view, InOrder(link, table))
  {
    var chain := InOrder(link, table);
    SortKeeps(KeyOf(link), table);
    ValidIsNumbered(link, chain);
    forall k: nat
      ensures SeesChain(link, view(k), chain)
    {
      assert SameRows(view(k), chain) && chain <= chain;
    }
  }

  lemma GrowingHead<T(!new)>(link: T -> Link, table: seq<T>, view: nat -> seq<T>, chain: seq<T>)
    requires Grows(link, table, view, chain)
    ensures |chain| == Head(link, table) && AllPositive(link, table) && chain == InOrder(link, table)
  {
    ValidIsNumbered(link, chain);
    NumberedTable(link, table, chain);
  }

  // ---------------------------------------------------------------- one page query

  lemma LinksSlice<T>(link: T -> Link, rows: seq<T>, i: nat, j: nat)
    requires i <= j <= |rows|
    ensures Links(link, rows)[i..j] == Links(link, rows[i..j])
  {
  }

  lemma LinksFront<T>(link: T -> Link, rows: seq<T>, n: nat)
    requires n <= |rows|
    ensures Links(link, rows)[..n] == Links(link, rows[..n])
  {
  }

  lemma LinksAppend<T>(link: T -> Link, a: seq<T>, b: seq<T>)
    ensures Links(link, a + b) == Links(link, a) + Links(link, b)
  {
  }

  lemma LinksWalked<T>(link: T -> Link, page: seq<T>)
    ensures Links(link, Walked(page)) == Walked(Links(link, page))
  {
  }

  lemma GrowingFetch<T(!new)>(link: T -> Link, rows: seq<T>, chain: seq<T>, last: nat)
    requires SeesChain(link, rows, chain) && last <= |chain|
    ensures Fetch(link, rows, last, |chain|) ==
            chain[last..if last + PAGE_SIZE + 1 < |chain| then last + PAGE_SIZE + 1 else |chain|]
  {
    var later :| SameRows(rows, later) && chain <= later && Numbered(KeyOf(link), later);
    PageOfNumbered(KeyOf(link), rows, later, last, |chain|, PAGE_SIZE + 1);
    assert chain == later[..|chain|];
  }

  /** A page that is the next slice of a valid chain does not break. */
  lemma SliceGoesOn<T>(link: T -> Link, cp: Option<Anchor>, w: Walk, chain: seq<T>, page: seq<T>)
    requires ValidRows(link, chain)
    requires 0 <= w.last < |chain| && Stands(cp, w, Links(link, chain[..w.last]))
    requires page == chain[w.last..if w.last + PAGE_SIZE + 1 < |chain| then w.last + PAGE_SIZE + 1 else |chain|]
    ensures WalkPage(cp, w, Links(link, page)).Going?
  {
    LinksSlice(link, chain, w.last, w.last + |page|);
    LinksFront(link, chain, w.last);
    WalkPageOnSlice(cp, w, Links(link, chain), Links(link, page));
  }

  /** A page that does not break extends the chain walked so far by the rows it used. */
  lemma GoingPage<T>(link: T -> Link, cp: Option<Anchor>, w: Walk, done: seq<T>, rows: seq<T>, through: int, w': Walk)
    requires Stands(cp, w, Links(link, done))
    requires WalkPage(cp, w, Links(link, Fetch(link, rows, w.last, through))) == Going(w')
    ensures Stands(cp, w', Links(link, done + Walked(Fetch(link, rows, w.last, through))))
    ensures w'.last == w.last + |Walked(Fetch(link, rows, w.last, through))| && w.last < w'.last <= through
  {
    var page := Fetch(link, rows, w.last, through);
    var used := Walked(page);
    LinksWalked(link, page);
    LinksAppend(link, done, used);
    WalkRowsSound(cp, w, Links(link, done), Links(link, used));
    var x := used[|used| - 1];
    PageInWindow(KeyOf(link), rows, w.last, through, PAGE_SIZE + 1, x);
    LastFits(link, done, used);
  }

  /** While a chain is only appended to, no page breaks ... */
  lemma GrowingPagePasses<T(!new)>(link: T -> Link, cp: Option<Anchor>, w: Walk, rows: seq<T>, chain: seq<T>)
    requires ValidRows(link, chain) && SeesChain(link, rows, chain)
    requires 0 <= w.last < |chain| && Stands(cp, w, Links(link, chain[..w.last]))
    ensures WalkPage(cp, w, Links(link, Fetch(link, rows, w.last, |chain|))).Going?
  {
    GrowingFetch(link, rows, chain, w.last);
    SliceGoesOn(link, cp, w, chain, Fetch(link, rows, w.last, |chain|));
  }

  /** ... and each walks the next rows of the chain. */
  lemma GrowingPageTaken<T(!new)>(link: T -> Link, rows: seq<T>, chain: seq<T>, last: nat, page: seq<T>)
    requires SeesChain(link, rows, chain) && last <= |chain| && page == Fetch(link, rows, last, |chain|)
    ensures last + |Walked(page)| <= |chain| && chain[..last] + Walked(page) == chain[..last + |Walked(page)|]
  {
    GrowingFetch(link, rows, chain, last);
  }

  lemma GrowingPageGoesOn<T(!new)>(link: T -> Link, cp: Option<Anchor>, w: Walk, rows: seq<T>, chain: seq<T>)
    requires ValidRows(link, chain) && SeesChain(link, rows, chain)
    requires 0 <= w.last < |chain| && Stands(cp, w, Links(link, chain[..w.last]))
    ensures var o := WalkPage(cp, w, Links(link, Fetch(link, rows, w.last, |chain|)));
            o.Going? && w.last < o.w.last <= |chain| && Stands(cp, o.w, Links(link, chain[..o.w.last]))
  {
    GrowingPagePasses(link, cp, w, rows, chain);
    var page := Fetch(link, rows, w.last, |chain|);
    GrowingPageTaken(link, rows, chain, w.last, page);
    GoingPage(link, cp, w, chain[..w.last], rows, |chain|, WalkPage(cp, w, Links(link, page)).w);
  }

  lemma LastFits<T>(link: T -> Link, done: seq<T>, used: seq<T>)
    requires used != [] && ValidRows(link, done + used)
    ensures KeyOf(link)(used[|used| - 1]) == |done| + |used|
  {
    var all := done + used;
    assert Fits(Links(link, all), |all| - 1) && all[|all| - 1] == used[|used| - 1];
  }

  /** Of a table that does not change, a page leaves nothing behind: the rows up to the new
      position are exactly those walked. The row fetched past the page shows that. */
  lemma StillPageTaken<T>(link: T -> Link, cp: Option<Anchor>, w: Walk, done: seq<T>, table: seq<T>, rows: seq<T>,
                          through: int, w': Walk)
    requires SameRows(rows, table) && Stands(cp, w, Links(link, done))
    requires multiset(Window(KeyOf(link), table, 0, w.last)) == multiset(done)
    requires WalkPage(cp, w, Links(link, Fetch(link, rows, w.last, through))) == Going(w')
    ensures multiset(Window(KeyOf(link), table, 0, w'.last)) ==
      multiset(done + Walked(Fetch(link, rows, w.last, through)))
  {
    hide WalkRows, Window, ValidLinks, CountUnkeyed, Page;
    var page := Fetch(link, rows, w.last, through);
    var used := Walked(page);
    GoingPage(link, cp, w, done, rows, through, w');
    UsedUpTo(link, done, used);
    UsedStops(link, page, rows, w.last, through, w'.last);
    PageTakesAll(KeyOf(link), table, rows, w.last, through, PAGE_SIZE + 1, page, |used|, w'.last);
    assert page[..|used|] == used;
    WindowSplits(KeyOf(link), table, 0, w.last, w'.last);
  }

  lemma UsedUpTo<T>(link: T -> Link, done: seq<T>, used: seq<T>)
    requires ValidRows(link, done + used)
    ensures AllUpTo(KeyOf(link), used, |done| + |used|)
    ensures used != [] ==> KeyOf(link)(used[|used| - 1]) == |done| + |used|
  {
    ValidIsNumbered(link, done + used);
    forall i | 0 <= i < |used|
      ensures KeyOf(link)(used[i]) == |done| + i + 1
    {
      assert (done + used)[|done| + i] == used[i];
    }
  }

  lemma UsedStops<T>(link: T -> Link, page: seq<T>, rows: seq<T>, last: int, through: int, upto: int)
    requires page == Fetch(link, rows, last, through) && |page| > 0
    requires KeyOf(link)(Walked(page)[|Walked(page)| - 1]) == upto
    requires |page| > PAGE_SIZE ==> Links(link, page)[PAGE_SIZE - 1].seqNo != Links(link, page)[PAGE_SIZE].seqNo
    ensures |Walked(page)| < |page| ==> KeyOf(link)(page[|Walked(page)|]) > upto
  {
    PageIsSorted(KeyOf(link), rows, last, through, PAGE_SIZE + 1);
    if |page| > PAGE_SIZE {
      assert Walked(page)[PAGE_SIZE - 1] == page[PAGE_SIZE - 1];
      assert KeyOf(link)(page[PAGE_SIZE - 1]) <= KeyOf(link)(page[PAGE_SIZE]);
    }
  }

  /** After the last page: what was walked is the whole table, in order. */
  lemma AllWalked<T>(link: T -> Link, cp: Option<Anchor>, w: Walk, done: seq<T>, table: seq<T>)
    requires AllPositive(link, table) && Stands(cp, w, Links(link, done)) && w.last == Head(link, table)
    requires multiset(Window(KeyOf(link), table, 0, w.last)) == multiset(done)
    ensures InOrder(link, table) == done
  {
    WindowIsAll(KeyOf(link), table, 0, Head(link, table));
    ValidIsNumbered(link, done);
    NumberedTable(link, table, done);
  }

  // ---------------------------------------------------------------- paging against one pass

  lemma FrontBelow<T>(key: T -> int, s: seq<T>, last: nat, j: nat)
    requires Sorted(key, s) && Distinct(key, s) && last <= j < |s| && Numbered(key, s[..last]) && key(s[j]) > 0
    ensures key(s[j]) > last
  {
    if last > 0 {
      assert key(s[..last][last - 1]) == last && s[..last][last - 1] == s[last - 1];
      assert key(s[last - 1]) <= key(s[j]) && key(s[last - 1]) != key(s[j]);
    }
  }

  lemma BackInWindow<T>(link: T -> Link, table: seq<T>, last: nat, j: nat)
    requires NoDuplicates(link, table) && AllPositive(link, table)
    requires last <= j < |InOrder(link, table)| && Numbered(KeyOf(link), InOrder(link, table)[..last])
    ensures InWindow(KeyOf(link), InOrder(link, table)[j], last, Head(link, table))
  {
    var s := InOrder(link, table);
    SortKeeps(KeyOf(link), table);
    SameMembers(s, table, s[j]);
    var i :| 0 <= i < |table| && table[i] == s[j];
    FrontBelow(KeyOf(link), s, last, j);
  }

  /** Without duplicate numbers there is one order, whatever order a query finds the rows in. */
  lemma OneOrder<T>(link: T -> Link, table: seq<T>, rows: seq<T>)
    requires SameRows(rows, table) && NoDuplicates(link, table)
    ensures InOrder(link, rows) == InOrder(link, table)
  {
    SortKeeps(KeyOf(link), table);
    SortKeeps(KeyOf(link), rows);
    SortedIsUnique(KeyOf(link), InOrder(link, rows), InOrder(link, table));
  }

  /** Then what a page query finds is the next stretch of the order. */
  lemma BackIsNext<T>(link: T -> Link, table: seq<T>, rows: seq<T>, last: nat)
    requires SameRows(rows, table) && NoDuplicates(link, table) && AllPositive(link, table)
    requires last <= |InOrder(link, table)| && Numbered(KeyOf(link), InOrder(link, table)[..last])
    ensures SortBy(KeyOf(link), Window(KeyOf(link), rows, last, Head(link, table))) == InOrder(link, table)[last..]
  {
    var s := InOrder(link, table);
    OneOrder(link, table, rows);
    forall i | 0 <= i < |s[last..]|
      ensures last < KeyOf(link)(s[last..][i]) <= Head(link, table)
    {
      BackInWindow(link, table, last, last + i);
    }
    SortOfBack(KeyOf(link), rows, last, last, Head(link, table));
  }

  lemma NumberedFront<T>(key: T -> int, s: seq<T>, last: nat)
    requires last <= |s| && Numbered(key, s[..last])
    ensures forall i :: 0 <= i < last ==> key(s[i]) == i + 1
  {
    forall i | 0 <= i < last
      ensures key(s[i]) == i + 1
    {
      assert key(s[..last][i]) == i + 1;
    }
  }

  lemma WithinOrder<T>(link: T -> Link, table: seq<T>, n: nat)
    requires n <= |InOrder(link, table)| && Numbered(KeyOf(link), InOrder(link, table)[..n]) && n < Head(link, table)
    ensures n < |InOrder(link, table)|
  {
    var s := InOrder(link, table);
    NumberedFront(KeyOf(link), s, n);
    var h :| 0 <= h < |table| && link(table[h]).seqNo == Head(link, table);
    SortKeeps(KeyOf(link), table);
    SameMembers(s, table, table[h]);
  }

  /** Without duplicates a page holds the next rows in order, none missing. */
  lemma DistinctPage<T>(link: T -> Link, table: seq<T>, rows: seq<T>, last: nat)
    requires SameRows(rows, table) && NoDuplicates(link, table) && AllPositive(link, table)
    requires last <= |InOrder(link, table)| && Numbered(KeyOf(link), InOrder(link, table)[..last])
    requires last < Head(link, table)
    ensures var page := Fetch(link, rows, last, Head(link, table));
            var s := InOrder(link, table);
            && 0 < |page| <= |s| - last && page == s[last..last + |page|]
            && (|page| > PAGE_SIZE ==> Links(link, page)[PAGE_SIZE - 1].seqNo != Links(link, page)[PAGE_SIZE].seqNo)
  {
    var s := InOrder(link, table);
    BackIsNext(link, table, rows, last);
    WithinOrder(link, table, last);
    var page := Fetch(link, rows, last, Head(link, table));
    if |page| > PAGE_SIZE {
      assert KeyOf(link)(s[last + PAGE_SIZE - 1]) != KeyOf(link)(s[last + PAGE_SIZE]);
    }
  }

  /** What the pages walked so far amount to, on a still table without duplicates. */
  ghost predicate InStep<T>(link: T -> Link, cp: Option<Anchor>, w: Walk, done: seq<T>, table: seq<T>) {
    && |done| <= |InOrder(link, table)| && done == InOrder(link, table)[..|done|]
    && WalkRows(cp, START, Links(link, done)) == Going(w)
  }

  lemma InStepWalk<T>(link: T -> Link, cp: Option<Anchor>, w: Walk, done: seq<T>, table: seq<T>, used: seq<T>)
    requires InStep(link, cp, w, done, table) && |done| + |used| <= |InOrder(link, table)|
    requires used == InOrder(link, table)[|done|..|done| + |used|]
    ensures var o := WalkRows(cp, w, Links(link, used));
            && (o.Going? ==> InStep(link, cp, o.w, done + used, table))
            && (o.Broken? ==> OnePass(link, cp, table) == BrokenReport(Head(link, table), o.count, o.at, o.why))
  {
    hide WalkRows, SortBy, Head;
    var s := InOrder(link, table);
    var later := s[|done| + |used|..];
    LinksAppend(link, done, used);
    WalkSplit(cp, START, Links(link, done), Links(link, used));
    assert done + used == s[..|done| + |used|] && s == (done + used) + later;
    LinksAppend(link, done + used, later);
    WalkSplit(cp, START, Links(link, done + used), Links(link, later));
  }

  lemma InStepPage<T>(link: T -> Link, cp: Option<Anchor>, w: Walk, done: seq<T>, table: seq<T>, rows: seq<T>)
    requires SameRows(rows, table) && NoDuplicates(link, table) && AllPositive(link, table)
    requires Stands(cp, w, Links(link, done)) && w.last < Head(link, table)
    requires InStep(link, cp, w, done, table)
    ensures var page := Fetch(link, rows, w.last, Head(link, table));
            var o := WalkPage(cp, w, Links(link, page));
            && (o.Going? ==> InStep(link, cp, o.w, done + Walked(page), table))
            && (o.Broken? ==> OnePass(link, cp, table) == BrokenReport(Head(link, table), o.count, o.at, o.why))
  {
    ValidIsNumbered(link, done);
    DistinctPage(link, table, rows, |done|);
    var page := Fetch(link, rows, w.last, Head(link, table));
    LinksWalked(link, page);
    InStepWalk(link, cp, w, done, table, Walked(page));
  }

  /** At the end of a still table without duplicates, one pass stands at the same place. */
  lemma InStepEnd<T>(link: T -> Link, cp: Option<Anchor>, w: Walk, done: seq<T>, table: seq<T>)
    requires InStep(link, cp, w, done, table) && InOrder(link, table) == done
    ensures OnePass(link, cp, table) == Conclude(cp, w, Head(link, table))
  {
    assert done == InOrder(link, table)[..|done|];
  }

  // ---------------------------------------------------------------- a table that stays as it is

  /** Every page query finds the table as the snapshot did, repeated numbers in one order. */
  ghost predicate Fixed<T>(table: seq<T>, view: nat -> seq<T>) { forall k: nat :: view(k) == table }

  lemma SortedAscends<T>(link: T -> Link, s: seq<T>)
    requires Sorted(KeyOf(link), s)
    ensures Ascends(Links(link, s))
  {
    forall i | 0 <= i < |s|
      ensures BelowLater(Links(link, s), i)
    {
      assert forall j :: i < j < |s| ==> KeyOf(link)(s[i]) <= KeyOf(link)(s[j]);
    }
  }

  /** k pages of rows are walked, none of which ends between two rows of one number. */
  ghost predicate PagesPassed(links: seq<Link>, n: nat, k: nat) {
    && (n == PAGE_SIZE * k || (n == |links| && n <= PAGE_SIZE * k))
    && forall i: nat :: i < k ==> !Straddled(links, i)
  }

  ghost predicate OnPages<T>(link: T -> Link, cp: Option<Anchor>, table: seq<T>, w: Walk, done: seq<T>, k: nat) {
    InStep(link, cp, w, done, table) && PagesPassed(Links(link, InOrder(link, table)), |done|, k)
  }

  /** The numbers to come are above those walked: the last page did not end within a number. */
  lemma NextIsAbove<T>(link: T -> Link, s: seq<T>, n: nat, k: nat)
    requires n < |s| && Sorted(KeyOf(link), s) && PagesPassed(Links(link, s), n, k) && Numbered(KeyOf(link), s[..n])
    requires n == 0 ==> KeyOf(link)(s[0]) > 0
    ensures AllUpTo(KeyOf(link), s[..n], n) && AllAbove(KeyOf(link), s[n..], n)
  {
    var key := KeyOf(link);
    if n > 0 {
      assert !Straddled(Links(link, s), k - 1);
      assert key(s[..n][n - 1]) == n;
      assert key(s[n - 1]) <= key(s[n]);
    }
    forall i | 0 <= i < |s[n..]|
      ensures key(s[n..][i]) > n
    {
      assert i > 0 ==> key(s[n]) <= key(s[n + i]);
    }
  }

  lemma OrderedPositive<T>(link: T -> Link, table: seq<T>)
    requires AllPositive(link, table)
    ensures Sorted(KeyOf(link), InOrder(link, table)) && |InOrder(link, table)| == |table|
    ensures forall i :: 0 <= i < |table| ==> 0 < KeyOf(link)(InOrder(link, table)[i]) <= Head(link, table)
  {
    var s := InOrder(link, table);
    SortKeeps(KeyOf(link), table);
    SameLength(s, table);
    forall i | 0 <= i < |s|
      ensures 0 < KeyOf(link)(s[i]) <= Head(link, table)
    {
      SameMembers(s, table, s[i]);
    }
  }

  /** A page query finds the next rows in order. */
  lemma OnPagesFetch<T>(link: T -> Link, table: seq<T>, n: nat, k: nat)
    requires AllPositive(link, table) && n < |InOrder(link, table)|
    requires PagesPassed(Links(link, InOrder(link, table)), n, k) && Numbered(KeyOf(link), InOrder(link, table)[..n])
    ensures NextSlice(InOrder(link, table), n, Fetch(link, table, n, Head(link, table)))
  {
    hide PagesPassed, Links, Head, SortBy;
    var s := InOrder(link, table);
    OrderedPositive(link, table);
    NextIsAbove(link, s, n, k);
    SortOfBack(KeyOf(link), table, n, n, Head(link, table));
  }

  /** `page` is the next page query's answer. */
  ghost predicate NextSlice<T>(s: seq<T>, n: nat, page: seq<T>) {
    n < |s| && page == s[n..if |s| - n <= PAGE_SIZE + 1 then |s| else n + PAGE_SIZE + 1]
  }

  /** The guard of a page looks at the two rows around its end. */
  lemma GuardIsStraddle<T>(link: T -> Link, s: seq<T>, k: nat, page: seq<T>)
    requires NextSlice(s, PAGE_SIZE * k, page)
    ensures Straddled(Links(link, s), k) <==>
            |page| > PAGE_SIZE && Links(link, page)[PAGE_SIZE - 1].seqNo == Links(link, page)[PAGE_SIZE].seqNo
    ensures |page| > PAGE_SIZE ==> Links(link, page)[PAGE_SIZE] == Links(link, s)[PAGE_SIZE * k + PAGE_SIZE]
  {
    var from := PAGE_SIZE * k;
    assert |page| == if |s| - from <= PAGE_SIZE + 1 then |s| - from else PAGE_SIZE + 1;
    if |page| > PAGE_SIZE {
      assert page[PAGE_SIZE - 1] == s[from + PAGE_SIZE - 1] && page[PAGE_SIZE] == s[from + PAGE_SIZE];
    }
  }

  lemma UsedOfSlice<T>(s: seq<T>, k: nat, page: seq<T>)
    requires NextSlice(s, PAGE_SIZE * k, page)
    ensures var n := PAGE_SIZE * k + |Walked(page)|;
            n <= |s| && Walked(page) == s[PAGE_SIZE * k..n]
            && (|Walked(page)| == PAGE_SIZE || n == |s| < PAGE_SIZE * k + PAGE_SIZE)
  {
    var from, n := PAGE_SIZE * k, PAGE_SIZE * k + |Walked(page)|;
    assert |page| == if |s| - from <= PAGE_SIZE + 1 then |s| - from else PAGE_SIZE + 1;
    forall i | 0 <= i < |Walked(page)|
      ensures Walked(page)[i] == s[from + i]
    {
    }
    assert Walked(page) == s[from..n];
  }

  /** What the report must say of a table that stays as it is: it is that of one pass exactly when
      no page that is reached ends between two rows of one number, and names the first break exactly
      when no such page holds a break at a lower number; otherwise it names that number. */
  ghost predicate FirstBreakReported<T>(link: T -> Link, cp: Option<Anchor>, table: seq<T>, r: Report) {
    var links, whole := Links(link, InOrder(link, table)), OnePass(link, cp, table);
    && (r == whole <==> !DuplicateReported(cp, links))
    && (r.brokenAt == whole.brokenAt <==> !BreakMasked(cp, links))
    && forall j: nat :: Straddled(links, j) && Reached(cp, links, j) ==>
         r == BrokenReport(Head(link, table), PAGE_SIZE * j, links[PAGE_SIZE * j + PAGE_SIZE].seqNo, DuplicateSeq)
  }

  lemma StoppedByGuard<T>(link: T -> Link, cp: Option<Anchor>, table: seq<T>, w: Walk, done: seq<T>, k: nat)
    requires OnPages(link, cp, table, w, done, k) && |done| == PAGE_SIZE * k == w.checked
    requires Straddled(Links(link, InOrder(link, table)), k)
    ensures FirstBreakReported(link, cp, table, BrokenReport(Head(link, table), w.checked,
              Links(link, InOrder(link, table))[PAGE_SIZE * k + PAGE_SIZE].seqNo, DuplicateSeq))
  {
    hide WalkRows, Head, Sorted, Ascends, BreakMasked, DuplicateReported;
    var s := InOrder(link, table);
    LinksSlice(link, s, 0, |done|);
    SortKeeps(KeyOf(link), table);
    SortedAscends(link, s);
    assert Links(link, s)[..PAGE_SIZE * k] == Links(link, done);
    StraddleDecides(cp, Links(link, s), k);
  }

  lemma StoppedAtRow<T>(link: T -> Link, cp: Option<Anchor>, table: seq<T>, w: Walk, done: seq<T>, k: nat, used: seq<T>)
    requires OnPages(link, cp, table, w, done, k) && |done| == PAGE_SIZE * k && |used| <= PAGE_SIZE
    requires !Straddled(Links(link, InOrder(link, table)), k)
    requires |done| + |used| <= |InOrder(link, table)| && used == InOrder(link, table)[|done|..|done| + |used|]
    requires WalkRows(cp, w, Links(link, used)).Broken?
    ensures var o := WalkRows(cp, w, Links(link, used));
            FirstBreakReported(link, cp, table, BrokenReport(Head(link, table), o.count, o.at, o.why))
  {
    hide WalkRows, Sorted, Head;
    InStepWalk(link, cp, w, done, table, used);
    var s, m := InOrder(link, table), |done| + |used|;
    LinksAppend(link, done, used);
    WalkSplit(cp, START, Links(link, done), Links(link, used));
    assert done + used == s[..m];
    LinksSlice(link, s, 0, m);
    NothingStraddled(cp, Links(link, s), k, m);
  }

  lemma PassedToNext<T>(link: T -> Link, cp: Option<Anchor>, table: seq<T>, w: Walk, done: seq<T>, k: nat, used: seq<T>,
                        w': Walk)
    requires OnPages(link, cp, table, w, done, k) && |done| == PAGE_SIZE * k
    requires !Straddled(Links(link, InOrder(link, table)), k)
    requires var n := |done| + |used|; var s := InOrder(link, table);
             n <= |s| && used == s[|done|..n] && (|used| == PAGE_SIZE || n == |s| < |done| + PAGE_SIZE)
    requires WalkRows(cp, w, Links(link, used)) == Going(w')
    ensures OnPages(link, cp, table, w', done + used, k + 1)
  {
    InStepWalk(link, cp, w, done, table, used);
  }

  /** The next page query on a table that stays as it is. */
  lemma OnPagesSlice<T>(link: T -> Link, cp: Option<Anchor>, table: seq<T>, w: Walk, done: seq<T>, k: nat)
    requires AllPositive(link, table) && Stands(cp, w, Links(link, done)) && w.last < Head(link, table)
    requires OnPages(link, cp, table, w, done, k)
    ensures |done| == PAGE_SIZE * k == w.checked
    ensures NextSlice(InOrder(link, table), PAGE_SIZE * k, Fetch(link, table, w.last, Head(link, table)))
  {
    ValidIsNumbered(link, done);
    WithinOrder(link, table, |done|);
    OnPagesFetch(link, table, |done|, k);
  }

  /** A page of a table that stays as it is: the walk goes on, or the report is decided. */
  lemma OnPagesPage<T>(link: T -> Link, cp: Option<Anchor>, table: seq<T>, w: Walk, done: seq<T>, k: nat, page: seq<T>,
                       o: Outcome)
    requires OnPages(link, cp, table, w, done, k) && |done| == PAGE_SIZE * k == w.checked
    requires NextSlice(InOrder(link, table), PAGE_SIZE * k, page) && o == WalkPage(cp, w, Links(link, page))
    ensures o.Going? ==> OnPages(link, cp, table, o.w, done + Walked(page), k + 1)
    ensures o.Broken? ==> FirstBreakReported(link, cp, table, BrokenReport(Head(link, table), o.count, o.at, o.why))
  {
    GuardIsStraddle(link, InOrder(link, table), k, page);
    if Straddled(Links(link, InOrder(link, table)), k) {
      StoppedByGuard(link, cp, table, w, done, k);
    } else {
      UsedOfSlice(InOrder(link, table), k, page);
      LinksWalked(link, page);
      assert o == WalkRows(cp, w, Links(link, Walked(page)));
      if o.Broken? {
        StoppedAtRow(link, cp, table, w, done, k, Walked(page));
      } else {
        PassedToNext(link, cp, table, w, done, k, Walked(page), o.w);
      }
    }
  }

  lemma FixedPage<T>(link: T -> Link, cp: Option<Anchor>, table: seq<T>, w: Walk, done: seq<T>, k: nat)
    requires AllPositive(link, table) && Stands(cp, w, Links(link, done)) && w.last < Head(link, table)
    requires OnPages(link, cp, table, w, done, k)
    ensures var page := Fetch(link, table, w.last, Head(link, table));
            var o := WalkPage(cp, w, Links(link, page));
            && (o.Going? ==> OnPages(link, cp, table, o.w, done + Walked(page), k + 1))
            && (o.Broken? ==>
                 FirstBreakReported(link, cp, table, BrokenReport(Head(link, table), o.count, o.at, o.why)))
  {
    OnPagesSlice(link, cp, table, w, done, k);
    var page := Fetch(link, table, w.last, Head(link, table));
    OnPagesPage(link, cp, table, w, done, k, page, WalkPage(cp, w, Links(link, page)));
  }

  /** After the last page of such a table. */
  lemma OnPagesEnd<T>(link: T -> Link, cp: Option<Anchor>, table: seq<T>, w: Walk, done: seq<T>, k: nat)
    requires OnPages(link, cp, table, w, done, k) && InOrder(link, table) == done
    ensures FirstBreakReported(link, cp, table, Conclude(cp, w, Head(link, table)))
  {
    var links := Links(link, done);
    InStepEnd(link, cp, w, done, table);
    assert !Straddled(links, k);
    NothingStraddled(cp, links, k, |links|);
  }

  // ---------------------------------------------------------------- the verifier

  /** The inner loop of Verify: check one row after the other. */
  method CheckRows<T>(link: T -> Link, cp: Option<Anchor>, rows: seq<T>, start: Walk) returns (o: Outcome)
    ensures o == WalkRows(cp, start, Links(link, rows))
  {
    hide WalkRows, Links;
    ghost var links := Links(link, rows);
    var w := start;
    assert links[0..] == links;
    for i := 0 to |rows|
      invariant WalkRows(cp, start, links) == WalkRows(cp, w, links[i..])
    {
      var x := link(rows[i]);
      WalkNext(cp, w, links, i);
      if x.seqNo != w.next { return Broken(w.checked, x.seqNo, SequenceGap); }
      if x.prev != w.prev { return Broken(w.checked, x.seqNo, PrevHashMismatch); }
      if x.verdict.UnknownKeyId? { return Broken(w.checked, x.seqNo, UnknownKey); }
      if x.verdict.BadHash? { return Broken(w.checked, x.seqNo, HashMismatch); }
      var unkeyed, reached, hashAt := w.unkeyed, w.reached, w.hashAt;
      if x.verdict.unkeyed { unkeyed := unkeyed + 1; }
      if cp.Some? && x.seqNo == cp.value.seqNo { hashAt, reached := x.hash, true; }
      w := Walk(x.seqNo, x.hash, w.next + 1, w.checked + 1, unkeyed, reached, hashAt);
    }
    assert links[|rows|..] == [];
    WalkNone(cp, w);
    return Going(w);
  }

  /** One turn of Verify's loop: the guards on the fetched page, then its rows. */
  method CheckPage<T>(link: T -> Link, cp: Option<Anchor>, page: seq<T>, start: Walk) returns (o: Outcome)
    ensures o == WalkPage(cp, start, Links(link, page))
  {
    if |page| == 0 { return Broken(start.checked, start.last + 1, MissingRecords); }
    if |page| > PAGE_SIZE && link(page[PAGE_SIZE - 1]).seqNo == link(page[PAGE_SIZE]).seqNo {
      return Broken(start.checked, link(page[PAGE_SIZE]).seqNo, DuplicateSeq);
    }
    LinksWalked(link, page);
    o := CheckRows(link, cp, Walked(page), start);
  }

  ghost predicate StillSoFar<T>(link: T -> Link, table: seq<T>, view: nat -> seq<T>, w: Walk, done: seq<T>) {
    Still(table, view) ==> multiset(Window(KeyOf(link), table, 0, w.last)) == multiset(done)
  }

  ghost predicate InStepSoFar<T>(link: T -> Link, cp: Option<Anchor>, table: seq<T>, view: nat -> seq<T>, w: Walk,
                                 done: seq<T>) {
    Still(table, view) && NoDuplicates(link, table) ==> InStep(link, cp, w, done, table)
  }

  ghost predicate GrowsSoFar<T(!new)>(link: T -> Link, table: seq<T>, view: nat -> seq<T>, w: Walk, done: seq<T>) {
    forall chain :: Grows(link, table, view, chain) ==> 0 <= w.last <= |chain| && done == chain[..w.last]
  }

  ghost predicate FixedSoFar<T>(link: T -> Link, cp: Option<Anchor>, table: seq<T>, view: nat -> seq<T>, w: Walk,
                                done: seq<T>,
                                k: nat) {
    Fixed(table, view) ==> OnPages(link, cp, table, w, done, k)
  }

  /** Where the loop of VerifyPages stands: the facts each page keeps. */
  ghost predicate Paging<T(!new)>(link: T -> Link, cp: Option<Anchor>, table: seq<T>, view: nat -> seq<T>, w: Walk,
                           done: seq<T>,
                                  k: nat) {
    && AllPositive(link, table) && Stands(cp, w, Links(link, done)) && w.last <= Head(link, table)
    && StillSoFar(link, table, view, w, done) && InStepSoFar(link, cp, table, view, w, done)
    && GrowsSoFar(link, table, view, w, done) && FixedSoFar(link, cp, table, view, w, done, k)
  }

  lemma PagingStarts<T(!new)>(link: T -> Link, cp: Option<Anchor>, table: seq<T>, view: nat -> seq<T>)
    requires AllPositive(link, table)
    ensures Paging(link, cp, table, view, START, [], 0)
  {
    WindowIsNone(KeyOf(link), table, 0, 0);
    var none: seq<T> := [];
    assert Links(link, none) == [] && none == InOrder(link, table)[..|none|];
  }

  lemma GrowsOn<T(!new)>(link: T -> Link, cp: Option<Anchor>, table: seq<T>, view: nat -> seq<T>, w: Walk, done: seq<T>,
                         k: nat, w': Walk)
    requires GrowsSoFar(link, table, view, w, done) && w.last < Head(link, table)
    requires w'.last == w.last + |Walked(Fetch(link, view(k), w.last, Head(link, table)))|
    ensures GrowsSoFar(link, table, view, w', done + Walked(Fetch(link, view(k), w.last, Head(link, table))))
  {
    hide ValidRows, InOrder, Head, Fetch, SeesChain;
    forall chain | Grows(link, table, view, chain)
      ensures 0 <= w'.last <= |chain|
      ensures done + Walked(Fetch(link, view(k), w.last, Head(link, table))) == chain[..w'.last]
    {
      GrowingHead(link, table, view, chain);
      GrowingPageTaken(link, view(k), chain, w.last, Fetch(link, view(k), w.last, Head(link, table)));
    }
  }

  lemma PagingGoesOn<T(!new)>(link: T -> Link, cp: Option<Anchor>, table: seq<T>, view: nat -> seq<T>, w: Walk,
                       done: seq<T>,
                              k: nat, w': Walk)
    requires Paging(link, cp, table, view, w, done, k) && w.last < Head(link, table)
    requires WalkPage(cp, w, Links(link, Fetch(link, view(k), w.last, Head(link, table)))) == Going(w')
    ensures Paging(link, cp, table, view, w', done + Walked(Fetch(link, view(k), w.last, Head(link, table))), k + 1)
    ensures w.last < w'.last
  {
    var through := Head(link, table);
    var page := Fetch(link, view(k), w.last, through);
    GoingPage(link, cp, w, done, view(k), through, w');
    if Still(table, view) {
      StillPageTaken(link, cp, w, done, table, view(k), through, w');
      if NoDuplicates(link, table) { InStepPage(link, cp, w, done, table, view(k)); }
    }
    GrowsOn(link, cp, table, view, w, done, k, w');
    if Fixed(table, view) { FixedPage(link, cp, table, w, done, k); }
  }

  lemma PagingBreaks<T(!new)>(link: T -> Link, cp: Option<Anchor>, table: seq<T>, view: nat -> seq<T>, w: Walk,
                       done: seq<T>, k: nat)
    requires Paging(link, cp, table, view, w, done, k) && w.last < Head(link, table)
    requires WalkPage(cp, w, Links(link, Fetch(link, view(k), w.last, Head(link, table)))).Broken?
    ensures var o := WalkPage(cp, w, Links(link, Fetch(link, view(k), w.last, Head(link, table))));
            Still(table, view) && NoDuplicates(link, table) ==>
              OnePass(link, cp, table) == BrokenReport(Head(link, table), o.count, o.at, o.why)
    ensures forall chain :: !Grows(link, table, view, chain)
    ensures Still(table, view) ==> !ValidRows(link, InOrder(link, table))
    ensures var o := WalkPage(cp, w, Links(link, Fetch(link, view(k), w.last, Head(link, table))));
            Fixed(table, view) ==>
              FirstBreakReported(link, cp, table, BrokenReport(Head(link, table), o.count, o.at, o.why))
  {
    if Fixed(table, view) { FixedPage(link, cp, table, w, done, k); }
    if Still(table, view) && NoDuplicates(link, table) { InStepPage(link, cp, w, done, table, view(k)); }
    forall chain | Grows(link, table, view, chain)
      ensures false
    {
      GrowingHead(link, table, view, chain);
      GrowingPagePasses(link, cp, w, view(k), chain);
    }
    if Still(table, view) && ValidRows(link, InOrder(link, table)) {
      StillValidGrows(link, table, view);
    }
  }

  lemma PagingEnds<T(!new)>(link: T -> Link, cp: Option<Anchor>, table: seq<T>, view: nat -> seq<T>, w: Walk,
                     done: seq<T>, k: nat)
    requires Paging(link, cp, table, view, w, done, k) && w.last >= Head(link, table)
    ensures var r := Conclude(cp, w, Head(link, table));
            && (Still(table, view) ==>
                  ValidRows(link, InOrder(link, table)) && (r.intact <==> RowsMeet(link, cp, InOrder(link, table))))
            && (Still(table, view) && NoDuplicates(link, table) ==> r == OnePass(link, cp, table))
            && (forall chain :: Grows(link, table, view, chain) ==> Reports(link, cp, chain, r))
            && (r.intact && cp.Some? ==> r.anchorMatch && cp.value.seqNo <= r.through)
            && (Fixed(table, view) ==> FirstBreakReported(link, cp, table, r))
  {
    ConcludeMeaning(cp, w, Links(link, done));
    if Still(table, view) {
      AllWalked(link, cp, w, done, table);
      if NoDuplicates(link, table) { InStepEnd(link, cp, w, done, table); }
      if Fixed(table, view) { OnPagesEnd(link, cp, table, w, done, k); }
    }
    forall chain | Grows(link, table, view, chain)
      ensures Reports(link, cp, chain, Conclude(cp, w, Head(link, table)))
    {
      GrowingHead(link, table, view, chain);
      assert chain[..w.last] == chain;
    }
  }

  /** One pass names the first row that does not fit, and why. */
  lemma OnePassTells<T>(link: T -> Link, cp: Option<Anchor>, table: seq<T>)
    ensures Tells(cp, Links(link, InOrder(link, table)), Head(link, table), OnePass(link, cp, table))
  {
    var chain := InOrder(link, table);
    if ValidRows(link, chain) {
      SortKeeps(KeyOf(link), table);
      ValidIsNumbered(link, chain);
      NumberedTable(link, table, chain);
    }
    PassTells(cp, Links(link, chain), Head(link, table), OnePass(link, cp, table));
  }

  /** What a verification that walked all of `chain` must say. */
  ghost predicate Reports<T>(link: T -> Link, cp: Option<Anchor>, chain: seq<T>, r: Report) {
    && (r.intact <==> RowsMeet(link, cp, chain))
    && r.through == r.count == |chain|
    && (r.intact ==> r.unkeyedCount == CountUnkeyed(Links(link, chain)) && (r.authenticated <==> r.unkeyedCount == 0))
  }

  /** A valid chain that meets the checkpoint, each of its rows in some page query's view. */
  ghost predicate SeenChain<T>(link: T -> Link, cp: Option<Anchor>, view: nat -> seq<T>, done: seq<T>) {
    ValidRows(link, done) && RowsMeet(link, cp, done) && SeenIn(view, done)
  }

  ghost predicate SeenIn<T>(view: nat -> seq<T>, rows: seq<T>) {
    forall x :: x in rows ==> exists k: nat :: x in view(k)
  }

  lemma FetchedIsSeen<T>(link: T -> Link, view: nat -> seq<T>, k: nat, done: seq<T>, last: int, through: int)
    requires SeenIn(view, done)
    ensures SeenIn(view, done + Walked(Fetch(link, view(k), last, through)))
  {
    var page := Fetch(link, view(k), last, through);
    forall x | x in page
      ensures x in view(k)
    {
      PageFromRows(KeyOf(link), view(k), last, through, PAGE_SIZE + 1, x);
    }
  }

  /** Rows missing from a page are missed right after those that were walked. */
  lemma MissedNext(cp: Option<Anchor>, w: Walk, done: seq<Link>, page: seq<Link>)
    requires Stands(cp, w, done) && WalkPage(cp, w, page).Broken? && WalkPage(cp, w, page).why == MissingRecords
    ensures WalkPage(cp, w, page).at == WalkPage(cp, w, page).count + 1
  {
    if page != [] && !(|page| > PAGE_SIZE && page[PAGE_SIZE - 1].seqNo == page[PAGE_SIZE].seqNo) {
      BreakIsMisfit(cp, w, done, Walked(page));
    }
  }

  lemma PagingMisses<T(!new)>(link: T -> Link, cp: Option<Anchor>, table: seq<T>, view: nat -> seq<T>, w: Walk,
                              done: seq<T>, k: nat)
    requires Paging(link, cp, table, view, w, done, k)
    ensures var o := WalkPage(cp, w, Links(link, Fetch(link, view(k), w.last, Head(link, table))));
            o.Broken? && o.why == MissingRecords ==> o.at == o.count + 1
  {
    var page := Links(link, Fetch(link, view(k), w.last, Head(link, table)));
    if WalkPage(cp, w, page).Broken? && WalkPage(cp, w, page).why == MissingRecords {
      MissedNext(cp, w, Links(link, done), page);
    }
  }

  lemma NothingSeen<T>(view: nat -> seq<T>)
    ensures SeenIn(view, [])
  {
  }

  lemma WalkedIsSeen<T(!new)>(link: T -> Link, cp: Option<Anchor>, table: seq<T>, view: nat -> seq<T>, w: Walk,
                              done: seq<T>, k: nat)
    requires Paging(link, cp, table, view, w, done, k) && w.last >= Head(link, table) && SeenIn(view, done)
    ensures var r := Conclude(cp, w, Head(link, table));
            r.why != MissingRecords && r.through == Head(link, table)
            && (r.intact ==> SeenChain(link, cp, view, done) && |done| == r.through
                             && r.unkeyedCount == CountUnkeyed(Links(link, done)))
  {
    ConcludeMeaning(cp, w, Links(link, done));
  }

  ghost predicate NumberIn<T>(link: T -> Link, table: seq<T>, n: int) {
    exists i :: 0 <= i < |table| && link(table[i]).seqNo == n
  }

  /** Verify. `table` and `cp` are what the locked snapshot read; `view(k)` is the table as
      page query k finds it, which a writer may have extended meanwhile. */
  method VerifyPages<T(!new)>(link: T -> Link, table: seq<T>, cp: Option<Anchor>, view: nat -> seq<T>)
      returns (r: Report)
    // On a table that does not change: intact exactly when the rows in order are a valid
    // chain that still meets the checkpoint.
    ensures Still(table, view) ==>
      (r.intact <==> ValidRows(link, InOrder(link, table)) && RowsMeet(link, cp, InOrder(link, table)))
    // While rows are appended: a chain that was valid at the snapshot is reported as one,
    // and only its checkpoint decides whether it is intact.
    ensures forall chain :: Grows(link, table, view, chain) ==> Reports(link, cp, chain, r)
    // Without duplicate numbers the whole report is that of one pass, first break included.
    ensures Still(table, view) && NoDuplicates(link, table) && AllPositive(link, table) ==>
      r == OnePass(link, cp, table) && Tells(cp, Links(link, InOrder(link, table)), Head(link, table), r)
    // On a table that stays as it is, row for row, the report is that of one pass exactly when no
    // page it reaches ends between two rows of one number, and the break it names is the first one
    // exactly when no such page holds a break at a lower number.
    ensures Fixed(table, view) && AllPositive(link, table) ==> FirstBreakReported(link, cp, table, r)
    // A row outside the positive numbers is named before anything else.
    ensures !AllPositive(link, table) ==>
      r == Report(false, 0, r.brokenAt, OutsideDomain, false, 0, 0, false) && r.brokenAt <= 0
      && NumberIn(link, table, r.brokenAt)
    // Whatever the page queries see: an intact report has walked a valid chain up to the highest number
    // of the snapshot, row by row as some page query saw it; and rows that are gone are missed there.
    ensures r.intact ==> r.through == Head(link, table) && exists done ::
      SeenChain(link, cp, view, done) && |done| == r.through && r.unkeyedCount == CountUnkeyed(Links(link, done))
    ensures r.why == MissingRecords ==> !r.intact && r.brokenAt == r.count + 1
    ensures r.intact && cp.Some? ==> r.anchorMatch && cp.value.seqNo <= r.through
    ensures r.intact ==> (r.authenticated <==> r.unkeyedCount == 0)
  {
    hide Tells, FirstBreakReported, OnePass, SeenIn, SeenChain, Reports, Grows, Still, Fixed, NoDuplicates, Paging,
         Links, InOrder, Fetch, WalkRows, CountUnkeyed, ValidRows, RowsMeet;
    if exists i :: 0 <= i < |table| && link(table[i]).seqNo <= 0 {
      var i :| 0 <= i < |table| && link(table[i]).seqNo <= 0;
      OutsideDomainBreaks(link, table, view);
      return BrokenReport(0, 0, link(table[i]).seqNo, OutsideDomain);
    }
    OnePassTells(link, cp, table);
    var through := Head(link, table);
    var w, k := START, 0;
    ghost var done: seq<T> := [];
    PagingStarts(link, cp, table, view);
    NothingSeen(view);
    while w.last < through
      invariant Paging(link, cp, table, view, w, done, k) && SeenIn(view, done)
      decreases through - w.last
    {
      var page := Fetch(link, view(k), w.last, through);
      var o := CheckPage(link, cp, page, w);
      if o.Broken? {
        PagingBreaks(link, cp, table, view, w, done, k);
        if o.why == MissingRecords { PagingMisses(link, cp, table, view, w, done, k); }
        return BrokenReport(through, o.count, o.at, o.why);
      }
      PagingGoesOn(link, cp, table, view, w, done, k, o.w);
      FetchedIsSeen(link, view, k, done, w.last, through);
      done := done + Walked(page);
      w, k := o.w, k + 1;
    }
    PagingEnds(link, cp, table, view, w, done, k);
    WalkedIsSeen(link, cp, table, view, w, done, k);
    r := Conclude(cp, w, through);
  }

  lemma OutsideDomainBreaks<T(!new)>(link: T -> Link, table: seq<T>, view: nat -> seq<T>)
    requires !AllPositive(link, table)
    ensures !ValidRows(link, InOrder(link, table))
    ensures forall chain :: !Grows(link, table, view, chain)
  {
    forall chain | Grows(link, table, view, chain)
      ensures false
    {
      GrowingHead(link, table, view, chain);
    }
    SortKeeps(KeyOf(link), table);
    if ValidRows(link, InOrder(link, table)) {
      ValidIsNumbered(link, InOrder(link, table));
      NumberedTable(link, table, InOrder(link, table));
    }
  }

  // ---------------------------------------------------------------- a break that paging hides

  function Same(): Link -> Link { x => x }

  /** Rows 1..500 and a second row 500; row 1 already points to a wrong hash. */
  function MaskingTable(): seq<Link> {
    seq(501, i => Link(if i < 500 then i + 1 else 500, [1], [1], Good(true)))
  }

  lemma MaskingTableInOrder()
    ensures AllPositive(Same(), MaskingTable()) && InOrder(Same(), MaskingTable()) == MaskingTable()
    ensures Links(Same(), MaskingTable()) == MaskingTable()
  {
    SortOfSorted(KeyOf(Same()), MaskingTable());
  }

  lemma MaskingTableHead()
    ensures Head(Same(), MaskingTable()) == 500
  {
    assert MaskingTable()[499].seqNo == 500;
  }

  lemma MaskingTableMasks()
    ensures var rows := MaskingTable();
            && WalkRows(None, START, rows) == Broken(0, 1, PrevHashMismatch)
            && Straddled(rows, 0) && Reached(None, rows, 0) && BreaksWithin(None, rows, 0) && rows[500].seqNo == 500
  {
    var rows := MaskingTable();
    assert rows[..0] == [] && rows[..500][0] == rows[0];
  }

  /** The first break of this table is at row 1, but the page guard looks at the end of the page
      before any row of it: the number taken twice there is reported instead. */
  method BoundaryDuplicateMasksFirstBreak() returns (r: Report)
    ensures r == BrokenReport(500, 0, 500, DuplicateSeq)
    ensures OnePass(Same(), None, MaskingTable()) == BrokenReport(500, 0, 1, PrevHashMismatch)
    ensures BreakMasked(None, Links(Same(), InOrder(Same(), MaskingTable())))
  {
    MaskingTableInOrder();
    MaskingTableHead();
    MaskingTableMasks();
    r := VerifyPages(Same(), MaskingTable(), None, k => MaskingTable());
  }
}
