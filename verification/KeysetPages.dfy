/** Keyset paging over a table kept in no particular order: rows with last < key <= through
    in key order, at most `limit` of them (internal/audit/verification_reader.go:47-49). */
module KeysetPages {

  predicate InWindow<T>(key: T -> int, x: T, last: int, through: int) { last < key(x) <= through }

  function Window<T>(key: T -> int, rows: seq<T>, last: int, through: int): seq<T> {
    if rows == [] then []
    else
      var front := Window(key, rows[..|rows| - 1], last, through);
      if InWindow(key, rows[|rows| - 1], last, through) then front + [rows[|rows| - 1]] else front
  }

  function Insert<T>(key: T -> int, x: T, sorted: seq<T>): seq<T> {
    if sorted == [] then [x]
    else if key(x) < key(sorted[|sorted| - 1]) then
      Insert(key, x, sorted[..|sorted| - 1]) + [sorted[|sorted| - 1]]
    else sorted + [x]
  }

  /** ORDER BY key ASC; rows with one key come in the order the table holds them. */
  function SortBy<T>(key: T -> int, rows: seq<T>): seq<T> {
    if rows == [] then [] else Insert(key, rows[|rows| - 1], SortBy(key, rows[..|rows| - 1]))
  }

  function Page<T>(key: T -> int, rows: seq<T>, last: int, through: int, limit: nat): seq<T> {
    var all := SortBy(key, Window(key, rows, last, through));
    if |all| <= limit then all else all[..limit]
  }

  ghost predicate Sorted<T>(key: T -> int, rows: seq<T>) {
    forall i, j :: 0 <= i < j < |rows| ==> key(rows[i]) <= key(rows[j])
  }

  ghost predicate Distinct<T>(key: T -> int, rows: seq<T>) {
    forall i, j :: 0 <= i < j < |rows| ==> key(rows[i]) != key(rows[j])
  }

  /** The keys are 1, 2, 3, ... in this order. */
  ghost predicate Numbered<T>(key: T -> int, rows: seq<T>) {
    forall i :: 0 <= i < |rows| ==> key(rows[i]) == i + 1
  }

  ghost predicate SameRows<T>(a: seq<T>, b: seq<T>) { multiset(a) == multiset(b) }

  lemma FrontAndLast<T>(s: seq<T>)
    requires s != []
    ensures s == s[..|s| - 1] + [s[|s| - 1]]
    ensures multiset(s) == multiset(s[..|s| - 1]) + multiset{s[|s| - 1]}
  {
    assert s == s[..|s| - 1] + [s[|s| - 1]];
  }

  ghost predicate Within<T>(u: multiset<T>, v: multiset<T>) {
    forall x :: x in u ==> u[x] <= v[x]
  }

  lemma SameCounts<T>(u: multiset<T>, v: multiset<T>)
    requires Within(u, v) && Within(v, u)
    ensures u == v
  {
  }

  lemma SortedFront<T>(key: T -> int, s: seq<T>)
    requires Sorted(key, s) && s != []
    ensures Sorted(key, s[..|s| - 1])
    ensures forall x :: x in s ==> key(x) <= key(s[|s| - 1])
  {
  }

  lemma SortedEnd<T>(key: T -> int, front: seq<T>, x: T)
    requires Sorted(key, front) && forall y :: y in front ==> key(y) <= key(x)
    ensures Sorted(key, front + [x])
  {
  }

  lemma {:induction false} InsertKeeps<T>(key: T -> int, x: T, sorted: seq<T>)
    requires Sorted(key, sorted)
    ensures Sorted(key, Insert(key, x, sorted))
    ensures multiset(Insert(key, x, sorted)) == multiset(sorted) + multiset{x}
  {
    if sorted != [] {
      var front, top := sorted[..|sorted| - 1], sorted[|sorted| - 1];
      FrontAndLast(sorted);
      SortedFront(key, sorted);
      if key(x) < key(top) {
        InsertKeeps(key, x, front);
        var r := Insert(key, x, front);
        forall y | y in r
          ensures key(y) <= key(top)
        {
          assert y in multiset(r);
        }
        SortedEnd(key, r, top);
      } else {
        SortedEnd(key, sorted, x);
      }
    }
  }

  lemma {:induction false} SortKeeps<T>(key: T -> int, rows: seq<T>)
    ensures Sorted(key, SortBy(key, rows)) && SameRows(SortBy(key, rows), rows)
  {
    if rows != [] {
      SortKeeps(key, rows[..|rows| - 1]);
      InsertKeeps(key, rows[|rows| - 1], SortBy(key, rows[..|rows| - 1]));
      FrontAndLast(rows);
    }
  }

  lemma SameLast<T>(key: T -> int, s: seq<T>, t: seq<T>)
    requires Sorted(key, s) && Sorted(key, t) && Distinct(key, t) && SameRows(s, t) && s != [] && t != []
    ensures s[|s| - 1] == t[|t| - 1]
  {
    var a, b := s[|s| - 1], t[|t| - 1];
    SortedFront(key, s);
    SortedFront(key, t);
    assert a in multiset(t) && b in multiset(s);
    assert key(a) == key(b);
  }

  /** A sorted arrangement without equal keys is the only sorted one. */
  lemma {:induction false} SortedIsUnique<T>(key: T -> int, s: seq<T>, t: seq<T>)
    requires Sorted(key, s) && Sorted(key, t) && Distinct(key, t) && SameRows(s, t)
    ensures s == t
  {
    assert |s| == |multiset(s)| == |multiset(t)| == |t|;
    if s != [] {
      SameLast(key, s, t);
      FrontAndLast(s);
      FrontAndLast(t);
      SortedFront(key, s);
      SortedFront(key, t);
      CancelOne(s[..|s| - 1], t[..|t| - 1], s[|s| - 1]);
      SortedIsUnique(key, s[..|s| - 1], t[..|t| - 1]);
    }
  }

  lemma CancelOne<T>(a: seq<T>, b: seq<T>, x: T)
    requires multiset(a) + multiset{x} == multiset(b) + multiset{x}
    ensures SameRows(a, b)
  {
    assert multiset(a) == multiset(a) + multiset{x} - multiset{x};
    assert multiset(b) == multiset(b) + multiset{x} - multiset{x};
  }

  lemma {:induction false} WindowCount<T>(key: T -> int, rows: seq<T>, last: int, through: int, x: T)
    ensures multiset(Window(key, rows, last, through))[x] ==
            if InWindow(key, x, last, through) then multiset(rows)[x] else 0
  {
    if rows != [] {
      WindowCount(key, rows[..|rows| - 1], last, through, x);
      FrontAndLast(rows);
    }
  }

  lemma WindowOfSame<T>(key: T -> int, a: seq<T>, b: seq<T>, last: int, through: int)
    requires SameRows(a, b)
    ensures SameRows(Window(key, a, last, through), Window(key, b, last, through))
  {
    WindowWithin(key, a, b, last, through);
    WindowWithin(key, b, a, last, through);
    SameCounts(multiset(Window(key, a, last, through)), multiset(Window(key, b, last, through)));
  }

  lemma WindowWithin<T>(key: T -> int, a: seq<T>, b: seq<T>, last: int, through: int)
    requires SameRows(a, b)
    ensures Within(multiset(Window(key, a, last, through)), multiset(Window(key, b, last, through)))
  {
    var u, v := multiset(Window(key, a, last, through)), multiset(Window(key, b, last, through));
    forall x | x in u
      ensures u[x] <= v[x]
    {
      WindowCount(key, a, last, through, x);
      WindowCount(key, b, last, through, x);
    }
  }

  lemma {:induction false} WindowOfNumbered<T>(key: T -> int, chain: seq<T>, last: nat, through: nat)
    requires Numbered(key, chain) && last <= through
    ensures Window(key, chain, last, through) ==
            chain[if last < |chain| then last else |chain|..if through < |chain| then through else |chain|]
  {
    if chain != [] {
      WindowOfNumbered(key, chain[..|chain| - 1], last, through);
    }
  }

  lemma NumberedIsSorted<T>(key: T -> int, chain: seq<T>, last: nat, through: nat)
    requires Numbered(key, chain) && last <= through <= |chain|
    ensures Sorted(key, chain[last..through]) && Distinct(key, chain[last..through])
  {
  }

  lemma OrderOfNumbered<T>(key: T -> int, view: seq<T>, chain: seq<T>, last: nat, through: nat)
    requires SameRows(view, chain) && Numbered(key, chain) && last <= through <= |chain|
    ensures SortBy(key, Window(key, view, last, through)) == chain[last..through]
  {
    var window := Window(key, view, last, through);
    WindowOfSame(key, view, chain, last, through);
    WindowOfNumbered(key, chain, last, through);
    SortKeeps(key, window);
    NumberedIsSorted(key, chain, last, through);
    SortedIsUnique(key, SortBy(key, window), chain[last..through]);
  }

  /** On a numbered table, held in any order, a page is the slice it should be. */
  lemma PageOfNumbered<T>(key: T -> int, view: seq<T>, chain: seq<T>, last: nat, through: nat, limit: nat)
    requires SameRows(view, chain) && Numbered(key, chain) && last <= through <= |chain|
    ensures Page(key, view, last, through, limit) ==
      chain[last..if last + limit < through then last + limit else through]
  {
    OrderOfNumbered(key, view, chain, last, through);
  }

  ghost predicate AllUpTo<T>(key: T -> int, rows: seq<T>, upto: int) {
    forall i :: 0 <= i < |rows| ==> key(rows[i]) <= upto
  }

  ghost predicate AllAbove<T>(key: T -> int, rows: seq<T>, upto: int) {
    forall i :: 0 <= i < |rows| ==> key(rows[i]) > upto
  }

  lemma CutCount<T>(key: T -> int, rows: seq<T>, view: seq<T>, taken: seq<T>, left: seq<T>,
                    last: int, through: int, upto: int, x: T)
    requires SameRows(view, rows) && upto <= through
    requires multiset(taken) + multiset(left) == multiset(Window(key, view, last, through))
    requires AllUpTo(key, taken, upto) && AllAbove(key, left, upto)
    ensures multiset(Window(key, rows, last, upto))[x] == multiset(taken)[x]
  {
    WindowCount(key, rows, last, upto, x);
    WindowCount(key, view, last, through, x);
    var c, d := multiset(taken)[x], multiset(left)[x];
    assert multiset(Window(key, view, last, through))[x] == c + d;
    assert c > 0 ==> x in taken;
    assert d > 0 ==> x in left;
  }

  lemma CutIsWindow<T>(key: T -> int, rows: seq<T>, view: seq<T>, taken: seq<T>, left: seq<T>,
                       last: int, through: int, upto: int)
    requires SameRows(view, rows) && upto <= through
    requires multiset(taken) + multiset(left) == multiset(Window(key, view, last, through))
    requires AllUpTo(key, taken, upto) && AllAbove(key, left, upto)
    ensures multiset(Window(key, rows, last, upto)) == multiset(taken)
  {
    var want, have := multiset(Window(key, rows, last, upto)), multiset(taken);
    forall x | x in want
      ensures want[x] <= have[x]
    {
      CutCount(key, rows, view, taken, left, last, through, upto, x);
    }
    forall x | x in have
      ensures have[x] <= want[x]
    {
      CutCount(key, rows, view, taken, left, last, through, upto, x);
    }
    SameCounts(want, have);
  }

  /** Rows taken off a page up to a key that the next row exceeds are exactly the rows of the
      table with that key or less: nothing equal is left behind. */
  lemma PageTakesAll<T>(key: T -> int, rows: seq<T>, view: seq<T>, last: int, through: int, limit: nat,
                        page: seq<T>, n: nat, upto: int)
    requires SameRows(view, rows) && upto <= through
    requires page == Page(key, view, last, through, limit) && n <= |page|
    requires AllUpTo(key, page[..n], upto)
    requires n < |page| ==> key(page[n]) > upto
    requires n == |page| ==> |page| < limit
    ensures multiset(Window(key, rows, last, upto)) == multiset(page[..n])
  {
    var all := SortBy(key, Window(key, view, last, through));
    SortKeeps(key, Window(key, view, last, through));
    assert page == if |all| <= limit then all else all[..limit];
    assert n < |all| ==> key(all[n]) > upto;
    Cut(key, all, n, upto);
    assert page[..n] == all[..n];
    CutIsWindow(key, rows, view, all[..n], all[n..], last, through, upto);
  }

  lemma Cut<T>(key: T -> int, all: seq<T>, n: nat, upto: int)
    requires Sorted(key, all) && n <= |all| && (n < |all| ==> key(all[n]) > upto)
    ensures AllAbove(key, all[n..], upto)
    ensures multiset(all[..n]) + multiset(all[n..]) == multiset(all)
  {
    assert all == all[..n] + all[n..];
  }

  lemma SameMembers<T>(a: seq<T>, b: seq<T>, x: T)
    requires SameRows(a, b)
    ensures x in a <==> x in b
  {
    assert x in multiset(a) <==> x in multiset(b);
  }

  lemma SameLength<T>(a: seq<T>, b: seq<T>)
    requires SameRows(a, b)
    ensures |a| == |b|
  {
    assert |multiset(a)| == |a| && |multiset(b)| == |b|;
  }

  lemma PageIsSorted<T>(key: T -> int, rows: seq<T>, last: int, through: int, limit: nat)
    ensures Sorted(key, Page(key, rows, last, through, limit))
  {
    SortKeeps(key, Window(key, rows, last, through));
  }

  lemma PageFromRows<T>(key: T -> int, rows: seq<T>, last: int, through: int, limit: nat, x: T)
    requires x in Page(key, rows, last, through, limit)
    ensures x in rows
  {
    var window := Window(key, rows, last, through);
    SortKeeps(key, window);
    assert x in SortBy(key, window);
    SameMembers(SortBy(key, window), window, x);
    WindowCount(key, rows, last, through, x);
  }

  lemma PageInWindow<T>(key: T -> int, rows: seq<T>, last: int, through: int, limit: nat, x: T)
    requires x in Page(key, rows, last, through, limit)
    ensures last < key(x) <= through
  {
    var window := Window(key, rows, last, through);
    SortKeeps(key, window);
    assert x in SortBy(key, window);
    SameMembers(SortBy(key, window), window, x);
    WindowCount(key, rows, last, through, x);
    assert x in multiset(window);
  }

  lemma {:induction false} WindowSplits<T>(key: T -> int, rows: seq<T>, a: int, b: int, c: int)
    requires a <= b <= c
    ensures multiset(Window(key, rows, a, c)) == multiset(Window(key, rows, a, b)) + multiset(Window(key, rows, b, c))
  {
    if rows != [] {
      WindowSplits(key, rows[..|rows| - 1], a, b, c);
    }
  }

  lemma {:induction false} WindowIsAll<T>(key: T -> int, rows: seq<T>, last: int, through: int)
    requires forall i :: 0 <= i < |rows| ==> InWindow(key, rows[i], last, through)
    ensures Window(key, rows, last, through) == rows
  {
    if rows != [] {
      WindowIsAll(key, rows[..|rows| - 1], last, through);
    }
  }

  lemma {:induction false} WindowIsNone<T>(key: T -> int, rows: seq<T>, last: int, through: int)
    requires forall i :: 0 <= i < |rows| ==> !InWindow(key, rows[i], last, through)
    ensures Window(key, rows, last, through) == []
  {
    if rows != [] {
      WindowIsNone(key, rows[..|rows| - 1], last, through);
    }
  }

  lemma {:induction false} WindowAppend<T>(key: T -> int, a: seq<T>, b: seq<T>, last: int, through: int)
    ensures Window(key, a + b, last, through) == Window(key, a, last, through) + Window(key, b, last, through)
  {
    if b == [] {
      assert a + b == a;
    } else {
      assert (a + b)[..|a + b| - 1] == a + b[..|b| - 1];
      WindowAppend(key, a, b[..|b| - 1], last, through);
    }
  }

  lemma {:induction false} WindowMembers<T>(key: T -> int, rows: seq<T>, last: int, through: int)
    ensures forall x :: x in Window(key, rows, last, through) ==> x in rows
  {
    if rows != [] {
      WindowMembers(key, rows[..|rows| - 1], last, through);
      FrontAndLast(rows);
    }
  }

  /** A row that no other exceeds goes to the end, in a window too. */
  lemma InsertAtEnd<T>(key: T -> int, x: T, rows: seq<T>, last: int, through: int)
    requires AllUpTo(key, rows, key(x))
    ensures Insert(key, x, rows) == rows + [x]
    ensures Insert(key, x, Window(key, rows, last, through)) == Window(key, rows, last, through) + [x]
  {
    var window := Window(key, rows, last, through);
    WindowMembers(key, rows, last, through);
    if window != [] {
      assert window[|window| - 1] in rows;
    }
  }

  lemma WindowOfEnd<T>(key: T -> int, rows: seq<T>, x: T, last: int, through: int)
    ensures Window(key, rows + [x], last, through) ==
            if InWindow(key, x, last, through) then Window(key, rows, last, through) + [x]
            else Window(key, rows, last, through)
  {
    assert (rows + [x])[..|rows|] == rows;
  }

  /** Inserting below the last row leaves it last, in a window too. */
  lemma InsertBelow<T>(key: T -> int, x: T, rows: seq<T>, top: T)
    requires key(x) < key(top)
    ensures Insert(key, x, rows + [top]) == Insert(key, x, rows) + [top]
  {
    assert (rows + [top])[..|rows|] == rows;
  }

  /** Taking a window of sorted rows and inserting a row commute. */
  lemma {:induction false} WindowOfInsert<T>(key: T -> int, x: T, sorted: seq<T>, last: int, through: int)
    requires Sorted(key, sorted)
    ensures Window(key, Insert(key, x, sorted), last, through) ==
            if InWindow(key, x, last, through) then Insert(key, x, Window(key, sorted, last, through))
            else Window(key, sorted, last, through)
    decreases |sorted|, 1
  {
    if sorted == [] {
      WindowOfEnd(key, [], x, last, through);
    } else {
      SortedFront(key, sorted);
      FrontAndLast(sorted);
      WindowInsertStep(key, x, sorted[..|sorted| - 1], sorted[|sorted| - 1], last, through);
    }
  }

  lemma {:induction false} WindowInsertStep<T>(key: T -> int, x: T, front: seq<T>, top: T, last: int, through: int)
    requires Sorted(key, front) && forall y :: y in front + [top] ==> key(y) <= key(top)
    ensures Window(key, Insert(key, x, front + [top]), last, through) ==
            if InWindow(key, x, last, through) then Insert(key, x, Window(key, front + [top], last, through))
            else Window(key, front + [top], last, through)
    decreases |front| + 1, 0
  {
    WindowOfEnd(key, front, top, last, through);
    if key(x) < key(top) {
      WindowOfInsert(key, x, front, last, through);
      InsertBelow(key, x, front, top);
      InsertBelow(key, x, Window(key, front, last, through), top);
      WindowOfEnd(key, Insert(key, x, front), top, last, through);
    } else {
      InsertAtEnd(key, x, front + [top], last, through);
      WindowOfEnd(key, front + [top], x, last, through);
    }
  }

  /** ORDER BY and WHERE commute: the rows of a window in order are the window of the order. */
  lemma {:induction false} SortOfWindow<T>(key: T -> int, rows: seq<T>, last: int, through: int)
    ensures SortBy(key, Window(key, rows, last, through)) == Window(key, SortBy(key, rows), last, through)
  {
    if rows != [] {
      var front := rows[..|rows| - 1];
      SortOfWindow(key, front, last, through);
      SortKeeps(key, front);
      WindowOfInsert(key, rows[|rows| - 1], SortBy(key, front), last, through);
    }
  }

  /** Where an order splits at a key, the rows past it are what a window of it holds. */
  lemma SortOfBack<T>(key: T -> int, rows: seq<T>, n: nat, last: int, through: int)
    requires n <= |SortBy(key, rows)|
    requires AllUpTo(key, SortBy(key, rows)[..n], last) && AllAbove(key, SortBy(key, rows)[n..], last)
    requires AllUpTo(key, SortBy(key, rows)[n..], through)
    ensures SortBy(key, Window(key, rows, last, through)) == SortBy(key, rows)[n..]
  {
    hide SortBy, Window;
    var s := SortBy(key, rows);
    SortOfWindow(key, rows, last, through);
    assert s == s[..n] + s[n..];
    WindowAppend(key, s[..n], s[n..], last, through);
    WindowIsNone(key, s[..n], last, through);
    WindowIsAll(key, s[n..], last, through);
  }

  lemma {:induction false} SortOfSorted<T>(key: T -> int, rows: seq<T>)
    requires Sorted(key, rows)
    ensures SortBy(key, rows) == rows
  {
    if rows != [] {
      SortedFront(key, rows);
      SortOfSorted(key, rows[..|rows| - 1]);
      FrontAndLast(rows);
    }
  }
}
