/** A restore from an encrypted byte stream, whatever became of it since it was written
    (internal/backup/backup.go:231-244, restore.go:72-103). */
module EncryptedTrip {
  import opened Common
  import Crypto = BackupCrypto
  import opened KvNamespace
  import opened Archive
  import opened ArchiveCheck
  import opened ArchiveDump
  import opened ArchiveRestore
  import opened ArchiveApply
  import opened ArchiveTrip

  /** Some of the entries of a dump of `src`, from the front. */
  ghost predicate FrontOf(src: Source, es: seq<Entry>, n: nat) { Honest(src, es) && n <= |es| }

  /** What the tar reader finds in the bytes of a dump, finished or not, is entries of that dump. */
  ghost predicate Tarred(untar: seq<byte> -> TarArchive, src: Source, plain: seq<byte>) {
    exists es, n: nat :: FrontOf(src, es, n) && untar(plain).entries == es[..n]
  }

  /** Archive j was sealed by a dump of srcs[j]. A failed dump closes its stream too. */
  ghost predicate SealedDumps(untar: seq<byte> -> TarArchive, tables: seq<string>, archives: seq<Crypto.Archive>,
                              srcs: seq<Source>) {
    && |srcs| == |archives|
    && forall j :: 0 <= j < |archives| && Crypto.ClosedLog(archives[j].log) ==>
         srcs[j].tables == tables && Tarred(untar, srcs[j], Crypto.Plain(archives[j].log))
  }

  /** The stream is, byte for byte, a closed archive that holds a whole, restorable dump of `src`. */
  ghost predicate WholeDump(a: Crypto.Aead, untar: seq<byte> -> TarArchive, x: Crypto.Archive, src: Source,
                            w: seq<byte>)
    requires |x.prefix| == Crypto.PREFIX_LEN
  {
    && Crypto.ClosedLog(x.log) && w == Crypto.Wire(a, x.prefix, x.log)
    && AllRead(src) && Restorable(src) && untar(Crypto.Plain(x.log)) == TarArchive(FullEntries(src), true)
  }

  ghost predicate IsWholeDump(a: Crypto.Aead, untar: seq<byte> -> TarArchive, archives: seq<Crypto.Archive>,
                              srcs: seq<Source>, w: seq<byte>)
    requires Crypto.Honest(archives) && |srcs| == |archives|
  {
    exists j :: 0 <= j < |archives| && WholeDump(a, untar, archives[j], srcs[j], w)
  }

  /** An accepted archive of sealed entries is a whole dump. */
  lemma AcceptedTar(untar: seq<byte> -> TarArchive, src: Source, plain: seq<byte>)
    requires Tarred(untar, src, plain) && Accepted(src.tables, untar(plain))
    requires NoRepeats(src.tables) && KV_RESULT !in src.tables
    ensures AllRead(src) && Restorable(src) && untar(plain) == TarArchive(FullEntries(src), true)
  {
    var es, n: nat :| FrontOf(src, es, n) && untar(plain).entries == es[..n];
    assert untar(plain) == TarArchive(es[..n], untar(plain).intact);
    AcceptedIsWhole(src, es, n, untar(plain).intact);
    assert es[..n] == es;
    WholeIsAccepted(src);
  }

  /** A clean stream names the archive it is. */
  lemma CleanNames(a: Crypto.Aead, archives: seq<Crypto.Archive>, w: seq<byte>) returns (j: nat)
    requires Crypto.Honest(archives) && Crypto.Ideal(a, Crypto.SealedPairs(archives)) && Crypto.Decrypt(a, w).clean
    ensures j < |archives| && Crypto.ClosedLog(archives[j].log)
    ensures w == Crypto.Wire(a, archives[j].prefix, archives[j].log)
    ensures Crypto.Decrypt(a, w).plain == Crypto.Plain(archives[j].log)
  {
    Crypto.AcceptedIsOneClosedArchive(a, archives, w);
    var x :| x in archives && Crypto.ClosedLog(x.log) && w == Crypto.Wire(a, x.prefix, x.log);
    j :| 0 <= j < |archives| && archives[j] == x;
  }

  /** What a whole dump decrypts to. */
  lemma WholeDecrypts(a: Crypto.Aead, untar: seq<byte> -> TarArchive, archives: seq<Crypto.Archive>, srcs: seq<Source>,
                      w: seq<byte>, j: nat)
    requires Crypto.Honest(archives) && Crypto.Ideal(a, Crypto.SealedPairs(archives)) && |srcs| == |archives|
    requires j < |archives| && WholeDump(a, untar, archives[j], srcs[j], w)
    ensures Crypto.Decrypt(a, w) == Crypto.Stream(Crypto.Plain(archives[j].log), true)
  {
    Crypto.AcceptedIsOneClosedArchive(a, archives, w);
  }

  /** A stream is accepted exactly when it is a whole dump. */
  lemma AcceptedStream(a: Crypto.Aead, untar: seq<byte> -> TarArchive, tables: seq<string>,
                       archives: seq<Crypto.Archive>,
                       srcs: seq<Source>, w: seq<byte>)
    requires Crypto.Honest(archives) && Crypto.Ideal(a, Crypto.SealedPairs(archives))
    requires SealedDumps(untar, tables, archives, srcs) && NoRepeats(tables) && KV_RESULT !in tables
    ensures IsWholeDump(a, untar, archives, srcs, w) <==>
            Crypto.Decrypt(a, w).clean && Accepted(tables, untar(Crypto.Decrypt(a, w).plain))
  {
    if Crypto.Decrypt(a, w).clean && Accepted(tables, untar(Crypto.Decrypt(a, w).plain)) {
      var j := CleanNames(a, archives, w);
      AcceptedTar(untar, srcs[j], Crypto.Decrypt(a, w).plain);
      assert WholeDump(a, untar, archives[j], srcs[j], w);
    }
    if IsWholeDump(a, untar, archives, srcs, w) {
      var j :| 0 <= j < |archives| && WholeDump(a, untar, archives[j], srcs[j], w);
      WholeDecrypts(a, untar, archives, srcs, w, j);
      WholeIsAccepted(srcs[j]);
    }
  }

  /** The target holds the rows of `src`, and its keys as a restore leaves them. */
  ghost predicate Reproduces(db: Target, kv0: Kv, src: Source)
    requires src.kv.Some?
    reads db
  {
    && (forall t :: t in src.tables ==> RowsOf(db.tables, t) == StoredRows(RowsAt(src, t), db.jsonb(t)))
    && (forall t :: t in src.tables ==> CameBack(src.table(t), RowsOf(db.tables, t), db.jsonb(t)))
    && (forall l :: l in src.kv.value ==> KeyBack(l, db.kv))
    && KvMoved(kv0, db.kv, src.kv.value) && KvPasses(db.kv, src.kv.value)
  }

  /** RestoreWithKey on any bytes at all. MAIN RESULT: unless they are exactly one archive that a
      dump sealed whole, nothing is written; and a restore that reports success has reproduced the
      source of that dump. None means the stream did not decrypt to its end. */
  method RestoreEncrypted(a: Crypto.Aead, w: seq<byte>, sizes: nat -> nat, untar: seq<byte> -> TarArchive,
                          tables: seq<string>,
                          db: Target, ghost archives: seq<Crypto.Archive>, ghost srcs: seq<Source>)
      returns (r: Option<Outcome>)
    requires Crypto.Honest(archives) && Crypto.Ideal(a, Crypto.SealedPairs(archives))
    requires SealedDumps(untar, tables, archives, srcs)
    requires NoRepeats(tables) && KV_RESULT !in tables && forall k :: sizes(k) > 0
    modifies db`ops, db`tables, db`kv
    ensures r.None? || r.value.Rejected? <==> !IsWholeDump(a, untar, archives, srcs, w)
    ensures r.None? || r.value.Rejected? ==> db.tables == old(db.tables) && db.kv == old(db.kv)
    ensures r.Some? && r.value.Restored? ==>
      exists j :: 0 <= j < |archives| && WholeDump(a, untar, archives[j], srcs[j], w)
                  && Reproduces(db, old(db.kv), srcs[j])
  {
    AcceptedStream(a, untar, tables, archives, srcs, w);
    var reader := Crypto.OpenStream(a, w);
    if reader.None? { return None; }
    var plain, clean := reader.value.ReadAll(sizes);
    if !clean { return None; }
    ghost var j := CleanNames(a, archives, w);
    if Accepted(tables, untar(plain)) {
      AcceptedTar(untar, srcs[j], plain);
      FullHolds(srcs[j]);
      assert WholeDump(a, untar, archives[j], srcs[j], w);
    }
    var outcome := Restore(tables, db, untar(plain));
    if outcome.Restored? { SourceCameBack(srcs[j], db); }
    if outcome.Restored? { assert Reproduces(db, old(db.kv), srcs[j]); }
    r := Some(outcome);
  }

  /** An encrypted dump cut at any byte is no whole dump: a restore from it writes nothing. */
  lemma CutIsNotWhole(a: Crypto.Aead, untar: seq<byte> -> TarArchive, archives: seq<Crypto.Archive>, srcs: seq<Source>,
                      x: Crypto.Archive, cut: nat)
    requires Crypto.Honest(archives) && Crypto.Ideal(a, Crypto.SealedPairs(archives)) && |srcs| == |archives|
    requires x in archives && cut < |Crypto.Wire(a, x.prefix, x.log)|
    ensures !IsWholeDump(a, untar, archives, srcs, Crypto.Wire(a, x.prefix, x.log)[..cut])
  {
    hide AllRead, Restorable, FullEntries, Crypto.Wire, Crypto.Ideal, Crypto.SealedPairs, Crypto.Decrypt;
    var w := Crypto.Wire(a, x.prefix, x.log)[..cut];
    Crypto.ProperPrefixIsRefused(a, archives, x, cut);
    forall j | 0 <= j < |archives|
      ensures !WholeDump(a, untar, archives[j], srcs[j], w)
    {
      if WholeDump(a, untar, archives[j], srcs[j], w) { WholeDecrypts(a, untar, archives, srcs, w, j); }
    }
  }

  /** Nor is the stream of a dump that failed to read something, though it was sealed to the end. */
  lemma FailedDumpIsNotWhole(a: Crypto.Aead, untar: seq<byte> -> TarArchive, archives: seq<Crypto.Archive>,
                             srcs: seq<Source>, k: nat)
    requires Crypto.Honest(archives) && Crypto.Ideal(a, Crypto.SealedPairs(archives)) && |srcs| == |archives|
    requires k < |archives| && !AllRead(srcs[k])
    ensures !IsWholeDump(a, untar, archives, srcs, Crypto.Wire(a, archives[k].prefix, archives[k].log))
  {
    hide AllRead, Restorable, FullEntries, Crypto.Wire, Crypto.Ideal, Crypto.SealedPairs;
    var w := Crypto.Wire(a, archives[k].prefix, archives[k].log);
    forall j | 0 <= j < |archives|
      ensures !WholeDump(a, untar, archives[j], srcs[j], w)
    {
      if WholeDump(a, untar, archives[j], srcs[j], w) {
        Crypto.WireNamesArchive(a, archives, archives[k], archives[j]);
      }
    }
  }
}
