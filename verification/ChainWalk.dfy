/** The walk along a hash chain, page by page, seen through what the verifier learns of each
    row: its number, its two hashes and how its MAC verified (internal/audit/audit.go:342-438). */
module ChainWalk {
  import opened Common

  const PAGE_SIZE := 500

  type Hash = seq<byte>

  datatype Verdict = Good(unkeyed: bool) | UnknownKeyId | BadHash

  /** One row as the walk sees it. */
  datatype Link = Link(seqNo: int, prev: Hash, hash: Hash, verdict: Verdict)

  /** The part of a checkpoint the walk compares against. */
  datatype Anchor = Anchor(seqNo: int, headHash: Hash)

  // ---------------------------------------------------------------- what a chain is

  function HashAt(chain: seq<Link>, n: nat): Hash
    requires n <= |chain|
  {
    if n == 0 then [] else chain[n - 1].hash
  }

  /** Link i has number i + 1, points to the hash before it, and verifies. */
  ghost predicate Fits(chain: seq<Link>, i: nat)
    requires i < |chain|
  {
    chain[i].seqNo == i + 1 && chain[i].prev == HashAt(chain, i) && chain[i].verdict.Good?
  }

  ghost predicate ValidLinks(chain: seq<Link>) {
    forall i :: 0 <= i < |chain| ==> Fits(chain, i)
  }

  /** The anchor, if there is one, still names the hash at its number. */
  ghost predicate AnchorHolds(cp: Option<Anchor>, chain: seq<Link>) {
    cp.Some? ==> 1 <= cp.value.seqNo <= |chain| && chain[cp.value.seqNo - 1].hash == cp.value.headHash
  }

  function CountUnkeyed(chain: seq<Link>): nat {
    if chain == [] then 0
    else
      var last := chain[|chain| - 1].verdict;
      CountUnkeyed(chain[..|chain| - 1]) + (if last.Good? && last.unkeyed then 1 else 0)
  }

  // ---------------------------------------------------------------- the walk

  datatype Why = Intact | UnkeyedRows | OutsideDomain | MissingRecords | DuplicateSeq
               | SequenceGap | PrevHashMismatch | UnknownKey | HashMismatch
               | BelowCheckpoint | CheckpointRewritten

  /** The loop variables of Verify. */
  datatype Walk = Walk(last: int, prev: Hash, next: int, checked: nat, unkeyed: nat, reached: bool, hashAt: Hash)

  const START := Walk(0, [], 1, 0, 0, false, [])

  datatype Outcome = Going(w: Walk) | Broken(count: nat, at: int, why: Why)

  /** Why a row does not continue the walk, if it does not. */
  function RowBreak(w: Walk, x: Link): Option<Why> {
    if x.seqNo != w.next then Some(SequenceGap)
    else if x.prev != w.prev then Some(PrevHashMismatch)
    else
      match x.verdict
      case UnknownKeyId => Some(UnknownKey)
      case BadHash => Some(HashMismatch)
      case Good(_) => None
  }

  function Step(cp: Option<Anchor>, w: Walk, x: Link): Walk {
    var at := cp.Some? && x.seqNo == cp.value.seqNo;
    Walk(x.seqNo, x.hash, w.next + 1, w.checked + 1,
         w.unkeyed + (if x.verdict.Good? && x.verdict.unkeyed then 1 else 0),
         w.reached || at, if at then x.hash else w.hashAt)
  }

  function WalkRows(cp: Option<Anchor>, w: Walk, rows: seq<Link>): Outcome
    decreases |rows|
  {
    if rows == [] then Going(w)
    else
      match RowBreak(w, rows[0])
      case Some(why) => Broken(w.checked, rows[0].seqNo, why)
      case None => WalkRows(cp, Step(cp, w, rows[0]), rows[1..])
  }

  lemma WalkNext(cp: Option<Anchor>, w: Walk, rows: seq<Link>, i: nat)
    requires i < |rows|
    ensures WalkRows(cp, w, rows[i..]) ==
            match RowBreak(w, rows[i])
            case Some(why) => Broken(w.checked, rows[i].seqNo, why)
            case None => WalkRows(cp, Step(cp, w, rows[i]), rows[i + 1..])
  {
    assert rows[i..][0] == rows[i] && rows[i..][1..] == rows[i + 1..];
  }

  lemma WalkNone(cp: Option<Anchor>, w: Walk)
    ensures WalkRows(cp, w, []) == Going(w)
  {
  }

  /** The rows of a page that are walked; one more may have been fetched. */
  function Walked<T>(page: seq<T>): seq<T> {
    if |page| > PAGE_SIZE then page[..PAGE_SIZE] else page
  }

  /** One page: up to PAGE_SIZE + 1 rows, the last only to expose a duplicate number across
      the page boundary. */
  function WalkPage(cp: Option<Anchor>, w: Walk, page: seq<Link>): Outcome {
    if page == [] then Broken(w.checked, w.last + 1, MissingRecords)
    else if |page| > PAGE_SIZE && page[PAGE_SIZE - 1].seqNo == page[PAGE_SIZE].seqNo then
      Broken(w.checked, page[PAGE_SIZE].seqNo, DuplicateSeq)
    else WalkRows(cp, w, Walked(page))
  }

  datatype Report = Report(intact: bool, count: nat, brokenAt: int, why: Why,
                           authenticated: bool, unkeyedCount: nat, through: int, anchorMatch: bool)

  function BrokenReport(through: int, count: nat, at: int, why: Why): Report {
    Report(false, count, at, why, false, 0, through, false)
  }

  /** After the last row: compare the checkpoint, then classify. */
  function Conclude(cp: Option<Anchor>, w: Walk, through: int): Report {
    var matched := cp.Some? && w.reached && w.hashAt == cp.value.headHash;
    var base := Report(true, w.checked, 0, Intact, false, 0, through, matched);
    if cp.Some? && cp.value.seqNo > through then
      base.(intact := false, brokenAt := through + 1, why := BelowCheckpoint)
    else if cp.Some? && !matched then
      base.(intact := false, brokenAt := cp.value.seqNo, why := CheckpointRewritten)
    else if w.unkeyed > 0 then base.(unkeyedCount := w.unkeyed, why := UnkeyedRows)
    else base.(authenticated := true)
  }

  // ---------------------------------------------------------------- what the walk establishes

  /** The walk stands after all links of the valid chain `done`. */
  ghost predicate Stands(cp: Option<Anchor>, w: Walk, done: seq<Link>) {
    && ValidLinks(done)
    && w.last == w.checked == |done| && w.next == |done| + 1 && w.prev == HashAt(done, |done|)
    && w.unkeyed == CountUnkeyed(done)
    && (w.reached <==> cp.Some? && 1 <= cp.value.seqNo <= |done|)
    && (w.reached ==> w.hashAt == done[cp.value.seqNo - 1].hash)
  }

  lemma ValidExtends(done: seq<Link>, x: Link)
    requires ValidLinks(done)
    requires x.seqNo == |done| + 1 && x.prev == HashAt(done, |done|) && x.verdict.Good?
    ensures ValidLinks(done + [x])
  {
    forall i | 0 <= i < |done + [x]|
      ensures Fits(done + [x], i)
    {
      assert i < |done| ==> Fits(done, i);
    }
  }

  lemma ValidPrefix(chain: seq<Link>, n: nat)
    requires ValidLinks(chain) && n <= |chain|
    ensures ValidLinks(chain[..n])
  {
    forall i | 0 <= i < n
      ensures Fits(chain[..n], i)
    {
      assert Fits(chain, i);
    }
  }

  lemma StepStands(cp: Option<Anchor>, w: Walk, done: seq<Link>, x: Link)
    requires Stands(cp, w, done) && RowBreak(w, x).None?
    ensures Stands(cp, Step(cp, w, x), done + [x])
  {
    ValidExtends(done, x);
    assert (done + [x])[..|done|] == done;
  }

  /** A walk that goes on has extended the chain by exactly the rows it was given. */
  lemma {:induction false} WalkRowsSound(cp: Option<Anchor>, w: Walk, done: seq<Link>, rows: seq<Link>)
    requires Stands(cp, w, done) && WalkRows(cp, w, rows).Going?
    ensures Stands(cp, WalkRows(cp, w, rows).w, done + rows)
    decreases |rows|
  {
    if rows == [] {
      assert done + rows == done;
    } else {
      StepStands(cp, w, done, rows[0]);
      WalkRowsSound(cp, Step(cp, w, rows[0]), done + [rows[0]], rows[1..]);
      assert done + rows == (done + [rows[0]]) + rows[1..];
    }
  }

  /** On the next links of a valid chain the walk does not break. */
  lemma {:induction false} WalkRowsComplete(cp: Option<Anchor>, w: Walk, chain: seq<Link>, from: nat, to: nat)
    requires ValidLinks(chain) && from <= to <= |chain| && Stands(cp, w, chain[..from])
    ensures WalkRows(cp, w, chain[from..to]).Going?
    decreases |chain| - from
  {
    if from < to {
      var x := chain[from];
      assert Fits(chain, from) && RowBreak(w, x).None?;
      StepStands(cp, w, chain[..from], x);
      assert chain[..from] + [x] == chain[..from + 1];
      WalkRowsComplete(cp, Step(cp, w, x), chain, from + 1, to);
      assert chain[from..to][1..] == chain[from + 1..to];
    }
  }

  lemma {:induction false} WalkSplit(cp: Option<Anchor>, w: Walk, a: seq<Link>, b: seq<Link>)
    ensures WalkRows(cp, w, a).Broken? ==> WalkRows(cp, w, a + b) == WalkRows(cp, w, a)
    ensures WalkRows(cp, w, a).Going? ==> WalkRows(cp, w, a + b) == WalkRows(cp, WalkRows(cp, w, a).w, b)
    decreases |a|
  {
    if a == [] {
      assert a + b == b;
    } else {
      assert (a + b)[1..] == a[1..] + b;
      if RowBreak(w, a[0]).None? { WalkSplit(cp, Step(cp, w, a[0]), a[1..], b); }
    }
  }

  lemma NumbersDiffer(chain: seq<Link>, i: nat)
    requires ValidLinks(chain) && i + 1 < |chain|
    ensures chain[i].seqNo != chain[i + 1].seqNo
  {
    assert Fits(chain, i) && Fits(chain, i + 1);
  }

  /** A page that is the next slice of a valid chain does not break. */
  lemma WalkPageOnSlice(cp: Option<Anchor>, w: Walk, chain: seq<Link>, page: seq<Link>)
    requires ValidLinks(chain) && 0 <= w.last < |chain| && Stands(cp, w, chain[..w.last])
    requires page == chain[w.last..if w.last + PAGE_SIZE + 1 < |chain| then w.last + PAGE_SIZE + 1 else |chain|]
    ensures WalkPage(cp, w, page).Going?
  {
    hide WalkRows, CountUnkeyed;
    var to := w.last + |Walked(page)|;
    WalkRowsComplete(cp, w, chain, w.last, to);
    assert Walked(page) == chain[w.last..to];
    if |page| > PAGE_SIZE {
      NumbersDiffer(chain, w.last + PAGE_SIZE - 1);
    }
  }

  /** What the closing comparison says of the chain that was walked. */
  lemma ConcludeMeaning(cp: Option<Anchor>, w: Walk, chain: seq<Link>)
    requires Stands(cp, w, chain)
    ensures var r := Conclude(cp, w, |chain|);
            && (r.intact <==> AnchorHolds(cp, chain))
            && r.through == r.count == |chain|
            && (r.intact ==> r.unkeyedCount == CountUnkeyed(chain) && (r.authenticated <==> r.unkeyedCount == 0))
            && (r.intact && cp.Some? ==> r.anchorMatch && cp.value.seqNo <= r.through)
  {
  }

  // ---------------------------------------------------------------- what a break says

  /** The first link that does not fit is link i, and this is why. */
  ghost predicate FirstMisfit(chain: seq<Link>, i: nat, why: Why) {
    && i < |chain| && ValidLinks(chain[..i])
    && why == (if chain[i].seqNo != i + 1 then SequenceGap
               else if chain[i].prev != HashAt(chain, i) then PrevHashMismatch
               else if chain[i].verdict.UnknownKeyId? then UnknownKey
               else HashMismatch)
    && !(chain[i].seqNo == i + 1 && chain[i].prev == HashAt(chain, i) && chain[i].verdict.Good?)
  }

  /** A walk that breaks names the first misfit, and has counted the links before it. */
  lemma {:induction false} BreakIsMisfit(cp: Option<Anchor>, w: Walk, done: seq<Link>, rows: seq<Link>)
    requires Stands(cp, w, done) && WalkRows(cp, w, rows).Broken?
    ensures var o := WalkRows(cp, w, rows);
            FirstMisfit(done + rows, o.count, o.why) && o.at == (done + rows)[o.count].seqNo
    decreases |rows|
  {
    hide ValidLinks, CountUnkeyed;
    if RowBreak(w, rows[0]).Some? {
      assert (done + rows)[..|done|] == done && (done + rows)[|done|] == rows[0];
    } else {
      hide Stands, FirstMisfit, RowBreak, Step;
      StepStands(cp, w, done, rows[0]);
      BreakIsMisfit(cp, Step(cp, w, rows[0]), done + [rows[0]], rows[1..]);
      assert rows == [rows[0]] + rows[1..];
      Associative(done, [rows[0]], rows[1..]);
    }
  }

  /** What the report of one pass over a chain must say; `through` is its highest number. */
  ghost predicate Tells(cp: Option<Anchor>, chain: seq<Link>, through: int, r: Report) {
    && r.through == through
    && (!r.intact ==> !r.authenticated && r.unkeyedCount == 0)
    && (r.intact ==> r.brokenAt == 0)
    && (!ValidLinks(chain) ==>
          !r.intact && !r.anchorMatch && FirstMisfit(chain, r.count, r.why) && r.brokenAt == chain[r.count].seqNo)
    && (ValidLinks(chain) ==> r.count == |chain| && (r.intact <==> AnchorHolds(cp, chain)))
    && (ValidLinks(chain) && !r.intact ==>
          if cp.value.seqNo > |chain| then r.why == BelowCheckpoint && r.brokenAt == |chain| + 1
          else r.why == CheckpointRewritten && r.brokenAt == cp.value.seqNo)
    && (r.intact ==> r.why == if CountUnkeyed(chain) > 0 then UnkeyedRows else Intact)
  }

  lemma NothingWalked(cp: Option<Anchor>)
    ensures Stands(cp, START, [])
  {
  }

  lemma PassTells(cp: Option<Anchor>, chain: seq<Link>, through: int, r: Report)
    requires ValidLinks(chain) ==> through == |chain|
    requires var o := WalkRows(cp, START, chain);
             r == if o.Broken? then BrokenReport(through, o.count, o.at, o.why) else Conclude(cp, o.w, through)
    ensures Tells(cp, chain, through, r)
  {
    NothingWalked(cp);
    hide ValidLinks, CountUnkeyed, FirstMisfit, WalkRows;
    assert [] + chain == chain;
    assert chain[0..|chain|] == chain && chain[..0] == [];
    if WalkRows(cp, START, chain).Broken? {
      if ValidLinks(chain) { WalkRowsComplete(cp, START, chain, 0, |chain|); }
      BreakIsMisfit(cp, START, [], chain);
    } else {
      WalkRowsSound(cp, START, [], chain);
    }
  }
}
