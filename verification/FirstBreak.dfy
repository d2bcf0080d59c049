/** Where a verification in pages and one pass over all rows report different breaks
    (internal/audit/audit.go:357-394): rows in order, walked in pages of 500. */
module FirstBreak {
  import opened Common
  import opened ChainWalk

  /** Page j ends between two rows of one number. */
  predicate Straddled(rows: seq<Link>, j: nat) {
    PAGE_SIZE * j + PAGE_SIZE < |rows|
    && rows[PAGE_SIZE * j + PAGE_SIZE - 1].seqNo == rows[PAGE_SIZE * j + PAGE_SIZE].seqNo
  }

  /** The pages before page j pass: no break among their rows, no number taken twice at their ends. */
  ghost predicate Reached(cp: Option<Anchor>, rows: seq<Link>, j: nat) {
    && PAGE_SIZE * j <= |rows| && WalkRows(cp, START, rows[..PAGE_SIZE * j]).Going?
    && forall i: nat :: i < j ==> !Straddled(rows, i)
  }

  /** Among the rows of page j is a break, at a lower number than the one its end straddles. */
  predicate BreaksWithin(cp: Option<Anchor>, rows: seq<Link>, j: nat)
    requires Straddled(rows, j)
  {
    var o := WalkRows(cp, START, rows[..PAGE_SIZE * j + PAGE_SIZE]);
    o.Broken? && o.at < rows[PAGE_SIZE * j + PAGE_SIZE].seqNo
  }

  ghost predicate DuplicateReported(cp: Option<Anchor>, rows: seq<Link>) {
    exists j: nat :: Straddled(rows, j) && Reached(cp, rows, j)
  }

  ghost predicate BreakMasked(cp: Option<Anchor>, rows: seq<Link>) {
    exists j: nat :: Straddled(rows, j) && Reached(cp, rows, j) && BreaksWithin(cp, rows, j)
  }

  // ---------------------------------------------------------------- rows in ascending order

  ghost predicate BelowLater(rows: seq<Link>, i: nat) {
    forall j :: i < j < |rows| ==> rows[i].seqNo <= rows[j].seqNo
  }

  ghost predicate Ascends(rows: seq<Link>) {
    forall i {:trigger BelowLater(rows, i)} :: 0 <= i < |rows| ==> BelowLater(rows, i)
  }

  // ---------------------------------------------------------------- what decides the report

  lemma {:induction false} WalkEnds(cp: Option<Anchor>, w: Walk, rows: seq<Link>)
    requires w.next == w.last + 1 && WalkRows(cp, w, rows).Going? && rows != []
    ensures var end := WalkRows(cp, w, rows).w; end.next == end.last + 1 && end.last == rows[|rows| - 1].seqNo
    decreases |rows|
  {
    if |rows| > 1 { WalkEnds(cp, Step(cp, w, rows[0]), rows[1..]); }
  }

  /** A break is at one of the rows. */
  lemma {:induction false} BreakIsAtARow(cp: Option<Anchor>, w: Walk, rows: seq<Link>) returns (i: nat)
    requires WalkRows(cp, w, rows).Broken?
    ensures i < |rows| && rows[i].seqNo == WalkRows(cp, w, rows).at
    decreases |rows|
  {
    i := 0;
    if RowBreak(w, rows[0]).None? {
      i := BreakIsAtARow(cp, Step(cp, w, rows[0]), rows[1..]);
      i := i + 1;
    }
  }

  /** One pass never speaks of duplicates: it sees a gap. */
  lemma {:induction false} NeverDuplicate(cp: Option<Anchor>, w: Walk, rows: seq<Link>)
    ensures WalkRows(cp, w, rows).Broken? ==> WalkRows(cp, w, rows).why != DuplicateSeq
    decreases |rows|
  {
    if rows != [] { NeverDuplicate(cp, Step(cp, w, rows[0]), rows[1..]); }
  }

  /** What stands at the front of the rows decides, once it breaks. */
  lemma BreakStays(cp: Option<Anchor>, rows: seq<Link>, m: nat, n: nat)
    requires m <= n <= |rows| && WalkRows(cp, START, rows[..m]).Broken?
    ensures WalkRows(cp, START, rows[..n]) == WalkRows(cp, START, rows[..m])
  {
    WalkSplit(cp, START, rows[..m], rows[m..n]);
    assert rows[..n] == rows[..m] + rows[m..n];
  }

  /** Rows that pass, the last of them with the number of the next row: that one breaks. */
  lemma TwiceBreaks(cp: Option<Anchor>, rows: seq<Link>, n: nat)
    requires 0 < n < |rows| && WalkRows(cp, START, rows[..n]).Going? && rows[n - 1].seqNo == rows[n].seqNo
    ensures WalkRows(cp, START, rows[..n + 1]).Broken? && WalkRows(cp, START, rows[..n + 1]).at == rows[n].seqNo
  {
    WalkEnds(cp, START, rows[..n]);
    assert rows[..n][n - 1] == rows[n - 1];
    WalkSplit(cp, START, rows[..n], [rows[n]]);
    assert rows[..n + 1] == rows[..n] + [rows[n]];
  }

  lemma AllOf(cp: Option<Anchor>, rows: seq<Link>)
    ensures WalkRows(cp, START, rows[..|rows|]) == WalkRows(cp, START, rows)
  {
    assert rows[..|rows|] == rows;
  }

  /** Rows that break: at one of their numbers, none above the next row's. */
  lemma BreaksBelow(cp: Option<Anchor>, rows: seq<Link>, n: nat)
    requires Ascends(rows) && n < |rows| && WalkRows(cp, START, rows[..n]).Broken?
    ensures WalkRows(cp, START, rows[..n]).at <= rows[n].seqNo
  {
    var i := BreakIsAtARow(cp, START, rows[..n]);
    assert BelowLater(rows, i) && rows[i] == rows[..n][i];
  }

  /** A number taken twice across the end of page j: one pass breaks at it, or at a lower one. */
  lemma StraddleBreaks(cp: Option<Anchor>, rows: seq<Link>, j: nat)
    requires Ascends(rows) && Straddled(rows, j)
    ensures WalkRows(cp, START, rows).Broken?
    ensures WalkRows(cp, START, rows).at == rows[PAGE_SIZE * j + PAGE_SIZE].seqNo <==> !BreaksWithin(cp, rows, j)
  {
    hide WalkRows;
    var n := PAGE_SIZE * j + PAGE_SIZE;
    AllOf(cp, rows);
    if WalkRows(cp, START, rows[..n]).Going? {
      TwiceBreaks(cp, rows, n);
      BreakStays(cp, rows, n + 1, |rows|);
    } else {
      BreaksBelow(cp, rows, n);
      BreakStays(cp, rows, n, |rows|);
    }
  }

  /** When the verifier stops at the end of page j for a number taken twice. */
  lemma StraddleDecides(cp: Option<Anchor>, rows: seq<Link>, j: nat)
    requires Ascends(rows) && Straddled(rows, j) && Reached(cp, rows, j)
    ensures DuplicateReported(cp, rows) && WalkRows(cp, START, rows).Broken?
    ensures WalkRows(cp, START, rows).why != DuplicateSeq
    ensures WalkRows(cp, START, rows).at == rows[PAGE_SIZE * j + PAGE_SIZE].seqNo <==> !BreakMasked(cp, rows)
    ensures forall i: nat :: Straddled(rows, i) && Reached(cp, rows, i) ==> i == j
  {
    StraddleBreaks(cp, rows, j);
    NeverDuplicate(cp, START, rows);
    if BreakMasked(cp, rows) {
      var i: nat :| Straddled(rows, i) && Reached(cp, rows, i) && BreaksWithin(cp, rows, i);
      assert i == j;
    }
  }

  /** When it stops at a row of page j, or passes the last page. */
  lemma NothingStraddled(cp: Option<Anchor>, rows: seq<Link>, j: nat, m: nat)
    requires forall i: nat :: i <= j ==> !Straddled(rows, i)
    requires m <= |rows| && m <= PAGE_SIZE * j + PAGE_SIZE
    requires m == |rows| || WalkRows(cp, START, rows[..m]).Broken?
    ensures !DuplicateReported(cp, rows) && !BreakMasked(cp, rows)
  {
    forall i: nat | Straddled(rows, i)
      ensures !Reached(cp, rows, i)
    {
      assert i > j;
      if m < |rows| { BreakStays(cp, rows, m, PAGE_SIZE * i); }
    }
  }
}
