/** The key-value snapshot of a dump meets the decoder of a restore: what a converged read spools
    is taken back whenever it is within the restore's budgets (internal/backup/kvsrcmap.go:105-159,
    257-396, 508-559). */
module KvArchive {
  import opened Common
  import opened StringOrder
  import opened KvNamespace
  import opened KvCollect
  import opened KvSnapshot
  import opened Archive
  import opened ArchiveTrip

  /** What the decoder refuses that the store may hold. */
  ghost predicate WithinBudget(l: KvLine, size: KvLine -> nat)
    requires NS <= l.key
  {
    && '\0' !in l.key[|NS|..]
    && size(l) < 320 * 1024 * 1024
    && match l.content
       case Str(value) => |value| <= 256 * 1024 * 1024
       case Members(members) => |members| <= 100_000
       case Scores(scores) => |scores| <= 100_000 && "" !in scores
  }

  lemma VisitedInNamespace(decode: Decoder, kv: Kv, k: string)
    requires k in Visited(decode, Listed(kv))
    ensures NS <= k
  {
    if k !in Listed(kv) {
      var s :| s in SitesOf(decode, Listed(kv)) && (k == ReleasesKey(s) || k == RelageKey(s));
      assert ReleasesKey(s)[..7] == NS && RelageKey(s)[..7] == NS;
    }
  }

  lemma ObservedHasContent(kv: Kv, k: string)
    ensures Observe(kv, k).Some? ==> Observe(kv, k).value != Members({}) && Observe(kv, k).value != Scores(map[])
  {
  }

  lemma SnapshotLine(decode: Decoder, past: seq<Kv>, lo: nat, hi: nat, lines: seq<KvLine>, c: Collect, i: nat)
    requires Collected(decode, past, lo, hi, LineMap(lines), c) && NoRepeats(KeysOf(lines)) && i < |lines|
    ensures NS <= lines[i].key && lines[i].content != Members({}) && lines[i].content != Scores(map[])
  {
    var k := lines[i].key;
    LineFound(lines, i);
    assert ReadAs(past, c.listAt, hi, LineMap(lines), c.readAt[k], k);
    VisitedInNamespace(decode, past[c.listAt], k);
    ObservedHasContent(past[c.readAt[k]], k);
  }

  lemma LineJudged(l: KvLine, size: KvLine -> nat)
    requires NS <= l.key
    ensures KvLineRestorable(l, size) <==>
              WithinBudget(l, size) && l.content != Members({}) && l.content != Scores(map[])
  {
  }

  /** A converged snapshot is restorable exactly when its values are within the restore's budgets
      and its keys and members are nameable there. */
  lemma SnapshotIsRestorable(decode: Decoder, past: seq<Kv>, lo: nat, hi: nat, lines: seq<KvLine>, c: Collect,
                             size: KvLine -> nat)
    requires Collected(decode, past, lo, hi, LineMap(lines), c) && StrictlyAscending(KeysOf(lines))
    ensures forall i :: 0 <= i < |lines| ==> NS <= lines[i].key
    ensures KvRestorable(lines, size) <==> forall i :: 0 <= i < |lines| ==> WithinBudget(lines[i], size)
  {
    AscendingKeys(KeysOf(lines));
    forall i | 0 <= i < |lines|
      ensures NS <= lines[i].key && (KvLineRestorable(lines[i], size) <==> WithinBudget(lines[i], size))
    {
      SnapshotLine(decode, past, lo, hi, lines, c, i);
      LineJudged(lines[i], size);
    }
  }

  /** The length of n bytes in padded base64. */
  function Base64Length(n: nat): nat { 4 * ((n + 2) / 3) }

  /** How long an archived string may be: its line carries the value as base64 beside `rest`
      characters of key and punctuation, and must fit the scanner. The value limit never decides:
      a value of that size has too long a line. */
  lemma LongestRestorableString(l: KvLine, size: KvLine -> nat, rest: nat)
    requires NS <= l.key && '\0' !in l.key[|NS|..] && l.content.Str?
    requires size(l) == rest + Base64Length(|l.content.value|)
    ensures KvLineRestorable(l, size) <==> rest < KV_LIMIT && |l.content.value| <= 3 * ((KV_LIMIT - 1 - rest) / 4)
    ensures |l.content.value| >= MAX_VALUE ==> !KvLineRestorable(l, size)
    ensures rest <= 256 && |l.content.value| <= 251_658_045 ==> KvLineRestorable(l, size)
  {
  }
}
