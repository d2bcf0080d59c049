/** The chunked authenticated-encryption stream that wraps a backup archive
    (internal/backup/crypto.go): a writer that seals 64 KiB chunks under counter nonces,
    and a reader that reports end of stream only after the chunk sealed as final. */
module BackupCrypto {
  import opened Common

  const MAGIC: seq<byte> := [79, 66, 83, 66, 75, 118, 49, 0]   // "OBSBKv1\0"
  const CHUNK_SIZE := 65536
  const PREFIX_LEN := 8
  const NONCE_SIZE := 12
  const TAG_SIZE := 16
  const MAX_CHUNKS := 0x100_0000
  const MAX_CIPHERTEXT := CHUNK_SIZE + 64

  // ---------------------------------------------------------------- the ideal cipher

  /** AES-256-GCM under one fixed key. */
  datatype Aead = Aead(
    seal: (seq<byte>, seq<byte>) -> seq<byte>,
    open: (seq<byte>, seq<byte>) -> Option<seq<byte>>)

  /** The laws the stream relies on. `log` holds the (nonce, plaintext) pairs that were
      sealed under the key: those open again, nothing else opens, and a ciphertext opens
      under one nonce only. */
  ghost predicate Ideal(a: Aead, log: iset<(seq<byte>, seq<byte>)>) {
    && (forall n, p :: |n| == NONCE_SIZE ==> |a.seal(n, p)| == |p| + TAG_SIZE)
    && (forall n, p :: (n, p) in log && |n| == NONCE_SIZE ==> a.open(n, a.seal(n, p)) == Some(p))
    && (forall n, c :: |n| == NONCE_SIZE && a.open(n, c).Some? ==>
          (n, a.open(n, c).value) in log && c == a.seal(n, a.open(n, c).value))
    && (forall n, m, c :: |n| == |m| == NONCE_SIZE && a.open(n, c).Some? && a.open(m, c).Some? ==> n == m)
  }

  ghost function TagOf(n: seq<byte>): (t: seq<byte>)
    ensures |t| == TAG_SIZE
  {
    if |n| == NONCE_SIZE then n + [0, 0, 0, 0] else seq(TAG_SIZE, _ => 0)
  }

  /** The laws can be met for every log, so no theorem below is vacuous. */
  lemma IdealAeadExists(log: iset<(seq<byte>, seq<byte>)>)
    ensures exists a :: Ideal(a, log)
  {
    var a := Aead((n, p) => p + TagOf(n), (n, c) => Untagged(log, n, c));
    forall n: seq<byte>, p: seq<byte> | (n, p) in log && |n| == NONCE_SIZE
      ensures a.open(n, a.seal(n, p)) == Some(p)
    {
      TaggedOpens(log, n, p);
    }
    forall n: seq<byte>, c: seq<byte> | |n| == NONCE_SIZE && a.open(n, c).Some?
      ensures (n, a.open(n, c).value) in log && c == a.seal(n, a.open(n, c).value)
    {
      OpenedIsTagged(log, n, c);
    }
    forall n: seq<byte>, m: seq<byte>, c: seq<byte>
      | |n| == |m| == NONCE_SIZE && a.open(n, c).Some? && a.open(m, c).Some?
      ensures n == m
    {
      TagNamesNonce(n, m);
    }
    assert Ideal(a, log);
  }

  /** Text followed by its nonce, padded: opens when the text was logged under that nonce. */
  ghost function Untagged(log: iset<(seq<byte>, seq<byte>)>, n: seq<byte>, c: seq<byte>): (p: Option<seq<byte>>)
    ensures p.Some? ==> |c| >= TAG_SIZE && c[|c| - TAG_SIZE..] == TagOf(n)
  {
    if |c| >= TAG_SIZE && c[|c| - TAG_SIZE..] == TagOf(n) && (n, c[..|c| - TAG_SIZE]) in log
    then Some(c[..|c| - TAG_SIZE]) else None
  }

  lemma TaggedOpens(log: iset<(seq<byte>, seq<byte>)>, n: seq<byte>, p: seq<byte>)
    requires (n, p) in log
    ensures Untagged(log, n, p + TagOf(n)) == Some(p)
  {
    var c := p + TagOf(n);
    assert c[..|c| - TAG_SIZE] == p && c[|c| - TAG_SIZE..] == TagOf(n);
  }

  lemma OpenedIsTagged(log: iset<(seq<byte>, seq<byte>)>, n: seq<byte>, c: seq<byte>)
    requires Untagged(log, n, c).Some?
    ensures (n, Untagged(log, n, c).value) in log && c == Untagged(log, n, c).value + TagOf(n)
  {
    assert c == c[..|c| - TAG_SIZE] + c[|c| - TAG_SIZE..];
  }

  lemma TagNamesNonce(n: seq<byte>, m: seq<byte>)
    requires |n| == |m| == NONCE_SIZE && TagOf(n) == TagOf(m)
    ensures n == m
  {
    assert n == TagOf(n)[..NONCE_SIZE] && m == TagOf(m)[..NONCE_SIZE];
  }

  // ---------------------------------------------------------------- nonces and lengths

  /** prefix || 3-byte big-endian counter || flag; refused from 2^24 chunks on. */
  function NonceFor(prefix: seq<byte>, i: nat, final: bool): (r: Option<seq<byte>>)
    requires |prefix| == PREFIX_LEN
    ensures r.Some? <==> i < MAX_CHUNKS
    ensures r.Some? ==> |r.value| == NONCE_SIZE
  {
    if i >= MAX_CHUNKS then None
    else Some(prefix + [i / 65536, i / 256 % 256, i % 256, if final then 1 else 0])
  }

  /** No two (prefix, counter, flag) triples share a nonce: RFC 5116 section 3.1. */
  lemma NonceInjective(p: seq<byte>, i: nat, f: bool, q: seq<byte>, j: nat, g: bool)
    requires |p| == |q| == PREFIX_LEN && i < MAX_CHUNKS && j < MAX_CHUNKS
    requires NonceFor(p, i, f) == NonceFor(q, j, g)
    ensures p == q && i == j && f == g
  {
    var n, m := NonceFor(p, i, f).value, NonceFor(q, j, g).value;
    assert p == n[..PREFIX_LEN] && q == m[..PREFIX_LEN];
    assert n[8] == m[8] && n[9] == m[9] && n[10] == m[10] && n[11] == m[11];
    CounterDigits(i);
    CounterDigits(j);
  }

  lemma CounterDigits(i: nat)
    ensures i == 65536 * (i / 65536) + 256 * (i / 256 % 256) + i % 256
  {
    assert i / 65536 == i / 256 / 256;
  }

  // ---------------------------------------------------------------- the wire format

  /** One sealed chunk: its plaintext and whether it was sealed under the final flag. */
  datatype Sealed = Sealed(plain: seq<byte>, final: bool)

  function Header(prefix: seq<byte>): seq<byte> { MAGIC + prefix }

  function Ciphertext(a: Aead, prefix: seq<byte>, i: nat, s: Sealed): seq<byte>
    requires |prefix| == PREFIX_LEN && i < MAX_CHUNKS
  {
    a.seal(NonceFor(prefix, i, s.final).value, s.plain)
  }

  /** Chunk i on the wire: 4-byte big-endian length, then the ciphertext. */
  function Frame(a: Aead, prefix: seq<byte>, i: nat, s: Sealed): seq<byte>
    requires |prefix| == PREFIX_LEN && i < MAX_CHUNKS
  {
    var ct := Ciphertext(a, prefix, i, s);
    BigEndian(|ct|, 4) + ct
  }

  /** The same byte by byte: the length of the ciphertext, then the ciphertext under a nonce of prefix,
      counter and flag. */
  ghost function ChunkBytesOf(a: Aead, prefix: seq<byte>, i: nat, plain: seq<byte>, final: bool): seq<byte>
    requires i < 0x100_0000
  {
    var ct := a.seal(prefix + [i / 65536, i / 256 % 256, i % 256, if final then 1 else 0], plain);
    var n := |ct|;
    [n / 16777216 % 256, n / 65536 % 256, n / 256 % 256, n % 256] + ct
  }

  lemma FourBytes(n: nat)
    ensures BigEndian(n, 4) == [n / 16777216 % 256, n / 65536 % 256, n / 256 % 256, n % 256]
  {
    assert n / 65536 == n / 256 / 256 && n / 16777216 == n / 256 / 256 / 256;
    assert BigEndian(n, 4) == BigEndian(n / 256, 3) + [n % 256];
    assert BigEndian(n / 256, 3) == BigEndian(n / 256 / 256, 2) + [n / 256 % 256];
    assert BigEndian(n / 256 / 256, 2) == BigEndian(n / 256 / 256 / 256, 1) + [n / 256 / 256 % 256];
    assert BigEndian(n / 256 / 256 / 256, 1) == BigEndian(n / 256 / 256 / 256 / 256, 0) + [n / 256 / 256 / 256 % 256];
  }

  /** The first chunks of an archive, concatenated: chunk i is sealed under counter i. */
  function Frames(a: Aead, prefix: seq<byte>, log: seq<Sealed>): seq<byte>
    requires |prefix| == PREFIX_LEN && |log| <= MAX_CHUNKS
  {
    if log == [] then []
    else Frames(a, prefix, log[..|log| - 1]) + Frame(a, prefix, |log| - 1, log[|log| - 1])
  }

  function Wire(a: Aead, prefix: seq<byte>, log: seq<Sealed>): seq<byte>
    requires |prefix| == PREFIX_LEN && |log| <= MAX_CHUNKS
  {
    Header(prefix) + Frames(a, prefix, log)
  }

  function Plain(log: seq<Sealed>): seq<byte> {
    if log == [] then [] else Plain(log[..|log| - 1]) + log[|log| - 1].plain
  }

  /** A stream that Close ended: exactly the last chunk is final. */
  ghost predicate ClosedLog(log: seq<Sealed>) {
    && 0 < |log| <= MAX_CHUNKS
    && log[|log| - 1].final
    && OpenLog(log[..|log| - 1])
    && |log[|log| - 1].plain| <= CHUNK_SIZE
  }

  /** A stream not yet closed: no chunk is final. */
  ghost predicate OpenLog(log: seq<Sealed>) {
    && |log| <= MAX_CHUNKS
    && forall i :: 0 <= i < |log| ==> !log[i].final && |log[i].plain| <= CHUNK_SIZE
  }

  // ---------------------------------------------------------------- the writer

  /** encryptWriter. `out` is what the destination has accepted. The destination may
      refuse any write after taking part of it; `broken` records that it did. */
  class EncryptWriter {
    const aead: Aead
    const prefix: seq<byte>
    var out: seq<byte>
    var buf: seq<byte>
    var idx: nat
    var closed: bool
    ghost var log: seq<Sealed>   // every chunk sealed, in counter order
    ghost var data: seq<byte>    // plaintext accepted by successful writes
    ghost var broken: bool

    ghost predicate Valid()
      reads this
    {
      && |prefix| == PREFIX_LEN
      && idx == |log| <= MAX_CHUNKS
      && |buf| <= CHUNK_SIZE
      && (forall i :: 0 <= i < |log| - 1 ==> !log[i].final)
      && (!closed ==> OpenLog(log))
      && (!broken ==> out == Wire(aead, prefix, log))
      && (!broken && !closed ==> |buf| < CHUNK_SIZE && WholeChunks(log))
      && (!broken && !closed ==> data == Plain(log) + buf && |data| == ChunkBytes(idx) + |buf|)
      && (!broken && closed ==> ClosedLog(log) && data == Plain(log))
    }

    constructor (aead: Aead, prefix: seq<byte>)
      requires |prefix| == PREFIX_LEN
      ensures Valid() && !broken && !closed
      ensures this.aead == aead && this.prefix == prefix && data == [] && log == []
      ensures out == [79, 66, 83, 66, 75, 118, 49, 0] + prefix   // "OBSBKv1", a zero byte, the prefix
    {
      this.aead, this.prefix := aead, prefix;
      out, buf, idx, closed := Header(prefix), [], 0, false;
      log, data, broken := [], [], false;
    }

    /** One Write on the destination: all of it, or a part and an error. */
    method Emit(bytes: seq<byte>, accepted: nat) returns (ok: bool)
      modifies this`out
      ensures ok <==> |bytes| <= accepted
      ensures ok ==> out == old(out) + bytes
      ensures !ok ==> out == old(out) + bytes[..accepted]
    {
      ok := |bytes| <= accepted;
      out := out + if ok then bytes else bytes[..accepted];
    }

    /** Seal one chunk under the next counter and send it. */
    method WriteChunk(plain: seq<byte>, final: bool, accepted: nat) returns (ok: bool)
      requires |prefix| == PREFIX_LEN && idx == |log| <= MAX_CHUNKS && |plain| <= CHUNK_SIZE
      modifies this`out, this`idx, this`log, this`broken
      ensures idx == |log| <= MAX_CHUNKS
      ensures log == if old(idx) < MAX_CHUNKS then old(log) + [Sealed(plain, final)] else old(log)
      ensures ok ==> old(idx) < MAX_CHUNKS && broken == old(broken)
      ensures ok && old(out) == Wire(aead, prefix, old(log)) ==> out == Wire(aead, prefix, log)
      ensures ok ==> Plain(log) == Plain(old(log)) + plain
      ensures ok ==> out == old(out) + ChunkBytesOf(aead, prefix, old(idx), plain, final)
      ensures old(idx) < MAX_CHUNKS && ExpandsByTag(aead) && accepted >= MAX_CIPHERTEXT ==> ok
      ensures !ok ==> broken
      ensures old(out) <= out && |out| - |old(out)| <= accepted
    {
      hide Wire, Plain, BigEndian;
      var nonce := NonceFor(prefix, idx, final);
      if nonce.None? {
        broken := true;
        return false;
      }
      WireAppend(aead, prefix, log, Sealed(plain, final));
      FourBytes(|aead.seal(nonce.value, plain)|);
      idx, log := idx + 1, log + [Sealed(plain, final)];
      var ct := aead.seal(nonce.value, plain);
      ok := Emit(BigEndian(|ct|, 4), accepted);
      if ok {
        ok := Emit(ct, accepted - 4);
      }
      if !ok { broken := true; }
    }

    /** Move as much of p as the buffer has room for. */
    method Fill(p: seq<byte>) returns (rest: seq<byte>)
      requires |buf| <= CHUNK_SIZE
      modifies this`buf
      ensures buf + rest == old(buf) + p && |rest| <= |p|
      ensures |buf| == CHUNK_SIZE || (|buf| < CHUNK_SIZE && rest == [])
    {
      var room := CHUNK_SIZE - |buf|;
      var n := if room > |p| then |p| else room;
      buf, rest := buf + p[..n], p[n..];
    }

    /** What one Write keeps true between the chunks it seals, `rest` being what is left. */
    ghost predicate Streaming(rest: seq<byte>)
      reads this
    {
      Buffered(rest) && (|buf| == CHUNK_SIZE ==> broken)
    }

    /** The same with a buffer that may be full. */
    ghost predicate Buffered(rest: seq<byte>)
      reads this
    {
      && |prefix| == PREFIX_LEN && idx == |log| && OpenLog(log) && |buf| <= CHUNK_SIZE
      && (!broken ==> out == Wire(aead, prefix, log) && WholeChunks(log))
      && (!broken ==> data == Plain(log) + (buf + rest) && |data| == ChunkBytes(idx) + |buf| + |rest|)
    }

    /** Seal the full buffer. */
    method SealFull(rest: seq<byte>, accepted: nat) returns (ok: bool)
      requires Buffered(rest) && |buf| == CHUNK_SIZE
      modifies this`out, this`buf, this`idx, this`log, this`broken
      ensures old(log) <= log
      ensures ok ==> Streaming(rest) && broken == old(broken) && buf == []
      ensures !ok ==> broken && Streaming([])
      ensures !old(broken) && |data| < ChunkBytes(MAX_CHUNKS) && ExpandsByTag(aead) && accepted >= MAX_CIPHERTEXT ==> ok
    {
      SealedPart(Plain(log), buf, rest);
      ok := WriteChunk(buf, false, accepted);
      if ok { buf := []; }
    }

    /** One turn of Write's loop: fill the buffer and seal it if it is now full. */
    method FillAndSeal(p: seq<byte>, accepted: nat) returns (ok: bool, rest: seq<byte>)
      requires Streaming(p) && p != []
      modifies this`out, this`buf, this`idx, this`log, this`broken
      ensures old(log) <= log
      ensures ok ==> Streaming(rest) && broken == old(broken)
      ensures ok ==> |rest| < |p| || (|rest| == |p| && |buf| < old(|buf|))
      ensures !ok ==> broken && Streaming([])
      ensures !old(broken) && |data| < ChunkBytes(MAX_CHUNKS) && ExpandsByTag(aead) && accepted >= MAX_CIPHERTEXT ==> ok
    {
      rest := Fill(p);
      ok := true;
      if |buf| == CHUNK_SIZE { ok := SealFull(rest, accepted); }
    }

    /** Write: fill the buffer, seal it whenever it is full. `accepted(k)` is how many bytes
        the destination would take of the chunk sealed in turn k. */
    method Write(p: seq<byte>, accepted: nat -> nat) returns (ok: bool)
      requires Valid() && !closed
      modifies this`out, this`buf, this`idx, this`log, this`data, this`broken
      ensures Valid()
      ensures old(log) <= log
      ensures ok ==> broken == old(broken) && data == old(data) + p
      ensures ok && !broken ==> |buf| < 65536 && forall i :: 0 <= i < |log| ==> |log[i].plain| == 65536 && !log[i].final
      ensures !ok ==> broken
      ensures (!old(broken) && |old(data)| + |p| < ChunkBytes(MAX_CHUNKS) && ExpandsByTag(aead)
               && forall k :: accepted(k) >= MAX_CIPHERTEXT) ==> ok
    {
      var rest := p;
      var k := 0;
      data := data + p;
      ok := true;
      assert !broken ==> data == Plain(log) + (buf + rest);
      while rest != []
        invariant ok && Streaming(rest) && old(log) <= log
        invariant broken == old(broken) && data == old(data) + p
        decreases |rest|, |buf|
      {
        ok, rest := FillAndSeal(rest, accepted(k));
        if !ok { return; }
        k := k + 1;
      }
      assert buf + [] == buf;
    }

    /** Close: the buffered rest becomes the one final chunk, even when it is empty. */
    method Close(accepted: nat) returns (ok: bool)
      requires Valid()
      modifies this`out, this`idx, this`closed, this`log, this`broken
      ensures Valid() && closed
      ensures old(closed) ==> ok && log == old(log) && out == old(out) && broken == old(broken)
      ensures !old(closed) && ok ==> log == old(log) + [Sealed(buf, true)] && broken == old(broken)
      ensures !old(closed) && ok && old(idx) < 0x100_0000 ==>
        out == old(out) + ChunkBytesOf(aead, prefix, old(idx), buf, true)
      ensures !ok ==> broken
      ensures (!old(broken) && |data| < ChunkBytes(MAX_CHUNKS) && ExpandsByTag(aead)
               && accepted >= MAX_CIPHERTEXT) ==> ok
    {
      if closed { return true; }
      closed := true;
      ok := WriteChunk(buf, true, accepted);
      assert ok ==> log[..|log| - 1] == old(log);
    }
  }

  function ChunkBytes(chunks: nat): nat { 65536 * chunks }

  ghost predicate WholeChunks(log: seq<Sealed>) {
    forall i :: 0 <= i < |log| ==> |log[i].plain| == CHUNK_SIZE
  }

  ghost predicate ExpandsByTag(a: Aead) {
    forall n, p :: |n| == NONCE_SIZE ==> |a.seal(n, p)| == |p| + TAG_SIZE
  }

  lemma FramesAppend(a: Aead, prefix: seq<byte>, log: seq<Sealed>, s: Sealed)
    requires |prefix| == PREFIX_LEN && |log| < MAX_CHUNKS
    ensures Frames(a, prefix, log + [s]) == Frames(a, prefix, log) + Frame(a, prefix, |log|, s)
  {
    var longer := log + [s];
    assert longer[..|longer| - 1] == log && longer[|longer| - 1] == s;
  }

  lemma PlainAppend(log: seq<Sealed>, s: Sealed)
    ensures Plain(log + [s]) == Plain(log) + s.plain
  {
    var longer := log + [s];
    assert longer[..|longer| - 1] == log;
  }

  lemma SealedPart(before: seq<byte>, chunk: seq<byte>, rest: seq<byte>)
    ensures before + (chunk + rest) == (before + chunk) + ([] + rest)
  {
    assert [] + rest == rest;
    Associative(before, chunk, rest);
  }

  lemma WireAppend(a: Aead, prefix: seq<byte>, log: seq<Sealed>, s: Sealed)
    requires |prefix| == PREFIX_LEN && |log| < MAX_CHUNKS
    ensures Wire(a, prefix, log + [s]) == Wire(a, prefix, log) + Frame(a, prefix, |log|, s)
    ensures Plain(log + [s]) == Plain(log) + s.plain
  {
    FramesAppend(a, prefix, log, s);
    Associative(Header(prefix), Frames(a, prefix, log), Frame(a, prefix, |log|, s));
    PlainAppend(log, s);
  }

  // ---------------------------------------------------------------- the reader

  /** Everything a reader of a stream is handed until it stops: the plaintext, and whether
      it stopped with end of stream (`clean`) or with an error. */
  datatype Stream = Stream(plain: seq<byte>, clean: bool)

  const BROKEN := Stream([], false)

  /** The meaning of a byte stream under a key, header included. */
  function Decrypt(a: Aead, w: seq<byte>): Stream {
    if |w| < |MAGIC| + PREFIX_LEN || w[..|MAGIC|] != MAGIC then BROKEN
    else DecryptFrom(a, w[|MAGIC|..|MAGIC| + PREFIX_LEN], 0, w[|MAGIC| + PREFIX_LEN..])
  }

  /** The meaning of what is left of a stream once `i` chunks were read. */
  function DecryptFrom(a: Aead, prefix: seq<byte>, i: nat, rest: seq<byte>): Stream
    requires |prefix| == PREFIX_LEN
    decreases |rest|
  {
    match NextCiphertext(rest)
    case None => BROKEN
    case Some(ct) =>
      if i >= MAX_CHUNKS then BROKEN
      else
        match a.open(NonceFor(prefix, i, false).value, ct)
        case Some(p) =>
          var later := DecryptFrom(a, prefix, i + 1, rest[4 + |ct|..]);
          Stream(p + later.plain, later.clean)
        case None =>
          match a.open(NonceFor(prefix, i, true).value, ct)
          case None => BROKEN
          case Some(p) => if |rest| > 4 + |ct| then BROKEN else Stream(p, true)
  }

  /** The next length-prefixed ciphertext, if all of it is there and its length is sane. */
  function NextCiphertext(rest: seq<byte>): (r: Option<seq<byte>>)
    ensures r.Some? ==> |r.value| <= MAX_CIPHERTEXT && |rest| >= 4 + |r.value|
  {
    if |rest| < 4 then None
    else
      var n := FromBigEndian(rest[..4]);
      if n > MAX_CIPHERTEXT || |rest| < 4 + n then None else Some(rest[4..4 + n])
  }

  lemma NextCiphertextShape(rest: seq<byte>)
    requires NextCiphertext(rest).Some?
    ensures var ct := NextCiphertext(rest).value;
            rest == BigEndian(|ct|, 4) + ct + rest[4 + |ct|..]
  {
    var ct := NextCiphertext(rest).value;
    BigEndianOfFrom(rest[..4]);
    assert rest == rest[..4] + rest[4..4 + |ct|] + rest[4 + |ct|..];
  }

  datatype ReadStatus = More | EndOfStream | Failed

  /** Where a reader is: next counter, source not read yet, plaintext not handed out yet. */
  datatype Cursor = Cursor(idx: nat, src: seq<byte>, buf: seq<byte>, done: bool) {

    /** What a reader at this point will still hand out. */
    ghost function Future(a: Aead, prefix: seq<byte>): Stream
      requires |prefix| == PREFIX_LEN
    {
      if done then Stream(buf, true)
      else
        var later := DecryptFrom(a, prefix, idx, src);
        Stream(buf + later.plain, later.clean)
    }

    /** The next chunk: tried first as an ordinary chunk, then as the final one. Bytes after
        the final chunk are an error. */
    function Advance(a: Aead, prefix: seq<byte>): (ReadStatus, Cursor)
      requires |prefix| == PREFIX_LEN
    {
      match NextCiphertext(src)
      case None => (Failed, this)
      case Some(ct) =>
        var at := this.(src := src[4 + |ct|..]);
        if idx >= MAX_CHUNKS then (Failed, at)
        else
          match a.open(NonceFor(prefix, idx, false).value, ct)
          case Some(p) => (More, at.(idx := idx + 1, buf := buf + p))
          case None =>
            match a.open(NonceFor(prefix, idx, true).value, ct)
            case None => (Failed, at)
            case Some(p) =>
              (if |src| > 4 + |ct| then Failed else More, at.(idx := idx + 1, buf := buf + p, done := true))
    }

    lemma AdvanceKeepsFuture(a: Aead, prefix: seq<byte>)
      requires |prefix| == PREFIX_LEN && buf == [] && !done
      ensures var (status, next) := Advance(a, prefix);
              && !status.EndOfStream?
              && (status.More? ==> next.Future(a, prefix) == Future(a, prefix) && |next.src| < |src|)
              && (status.Failed? ==> Future(a, prefix) == BROKEN)
    {
    }
  }

  /** decryptReader. */
  class DecryptReader {
    const aead: Aead
    const prefix: seq<byte>
    var src: seq<byte>
    var idx: nat
    var buf: seq<byte>
    var done: bool

    ghost function Here(): Cursor
      reads this
    {
      Cursor(idx, src, buf, done)
    }

    ghost function Future(): Stream
      requires |prefix| == PREFIX_LEN
      reads this
    {
      Here().Future(aead, prefix)
    }

    constructor (aead: Aead, prefix: seq<byte>, src: seq<byte>)
      requires |prefix| == PREFIX_LEN
      ensures this.prefix == prefix && this.aead == aead && Here() == Cursor(0, src, [], false)
    {
      this.aead, this.prefix, this.src := aead, prefix, src;
      idx, buf, done := 0, [], false;
    }

    method FillChunk() returns (status: ReadStatus)
      requires |prefix| == PREFIX_LEN
      modifies this
      ensures old(done) ==> status == EndOfStream && Here() == old(Here())
      ensures !old(done) ==> (status, Here()) == old(Here()).Advance(aead, prefix)
    {
      if done { return EndOfStream; }
      var next := NextCiphertext(src);
      if next.None? { return Failed; }
      var ct := next.value;
      src := src[4 + |ct|..];
      var ordinary := NonceFor(prefix, idx, false);
      if ordinary.None? { return Failed; }
      var plain := aead.open(ordinary.value, ct);
      if plain.Some? {
        idx, buf := idx + 1, buf + plain.value;
        return More;
      }
      plain := aead.open(NonceFor(prefix, idx, true).value, ct);
      if plain.None? { return Failed; }
      idx, buf, done := idx + 1, buf + plain.value, true;
      status := if src != [] then Failed else More;
    }

    /** Read into a buffer of n bytes. */
    method Read(n: nat) returns (out: seq<byte>, status: ReadStatus)
      requires |prefix| == PREFIX_LEN
      modifies this
      ensures status.More? ==> |out| <= n && (n > 0 ==> out != []) && out <= old(Future()).plain
      ensures status.More? ==> Future() == Stream(old(Future()).plain[|out|..], old(Future()).clean)
      ensures status.EndOfStream? ==> out == [] && old(Future()) == Stream([], true)
      ensures status.Failed? ==> out == [] && old(Future()) == BROKEN
    {
      while buf == []
        invariant Future() == old(Future())
        decreases !done, |src|
      {
        if !done { Here().AdvanceKeepsFuture(aead, prefix); }
        status := FillChunk();
        if !status.More? { return [], status; }
      }
      var k := if n < |buf| then n else |buf|;
      assert Future().plain[..k] == buf[..k];
      out, buf, status := buf[..k], buf[k..], More;
    }

    /** Drain the reader as io.Copy does: stop at the first end of stream or error. Read
        number k is made with a buffer of sizes(k) bytes. */
    method ReadAll(sizes: nat -> nat) returns (plain: seq<byte>, clean: bool)
      requires |prefix| == PREFIX_LEN && forall k :: sizes(k) > 0
      modifies this
      ensures Stream(plain, clean) == old(Future())
    {
      hide DecryptFrom, NextCiphertext, Cursor.Future;
      plain := [];
      var k := 0;
      ghost var all, left := Future(), Future();
      while true
        invariant left == Future() && left.clean == all.clean && plain + left.plain == all.plain
        decreases |left.plain|
      {
        var out, status := Read(sizes(k));
        if !status.More? { return plain, status.EndOfStream?; }
        TakeMore(plain, out, left.plain);
        left := Stream(left.plain[|out|..], left.clean);
        plain, k := plain + out, k + 1;
      }
    }
  }

  lemma TakeMore(taken: seq<byte>, out: seq<byte>, left: seq<byte>)
    requires out <= left
    ensures (taken + out) + left[|out|..] == taken + left
  {
  }

  /** newDecryptReader: check the header, keep the nonce prefix. */
  method OpenStream(aead: Aead, w: seq<byte>) returns (r: Option<DecryptReader>)
    ensures r.Some? ==> fresh(r.value) && |r.value.prefix| == PREFIX_LEN && r.value.Future() == Decrypt(aead, w)
    ensures r.None? ==> Decrypt(aead, w) == BROKEN
  {
    if |w| < |MAGIC| || w[..|MAGIC|] != MAGIC { return None; }
    if |w| < |MAGIC| + PREFIX_LEN { return None; }
    var reader := new DecryptReader(aead, w[|MAGIC|..|MAGIC| + PREFIX_LEN], w[|MAGIC| + PREFIX_LEN..]);
    return Some(reader);
  }

  // ---------------------------------------------------------------- theorems

  /** One encrypted archive: its random prefix and every chunk sealed for it. */
  datatype Archive = Archive(prefix: seq<byte>, log: seq<Sealed>)

  /** All archives ever sealed under the key: fresh prefixes, counters from 0, and a final
      flag on the last chunk at most. */
  ghost predicate Honest(archives: seq<Archive>) {
    && (forall j :: 0 <= j < |archives| ==>
          |archives[j].prefix| == PREFIX_LEN && (ClosedLog(archives[j].log) || OpenLog(archives[j].log)))
    && (forall j, k :: 0 <= j < k < |archives| ==> archives[j].prefix != archives[k].prefix)
  }

  /** What two writers under one key seal is so, with prefixes of their own and no failed Close. */
  lemma WritersAreHonest(x: EncryptWriter, y: EncryptWriter)
    requires x.Valid() && y.Valid() && !(x.closed && x.broken) && !(y.closed && y.broken) && x.prefix != y.prefix
    ensures Honest([Archive(x.prefix, x.log), Archive(y.prefix, y.log)])
  {
  }

  ghost predicate SealedBy(x: Archive, n: seq<byte>, p: seq<byte>) {
    |x.prefix| == PREFIX_LEN && exists k ::
      0 <= k < |x.log| && x.log[k].plain == p && NonceFor(x.prefix, k, x.log[k].final) == Some(n)
  }

  ghost function SealedPairs(archives: seq<Archive>): iset<(seq<byte>, seq<byte>)> {
    iset pair: (seq<byte>, seq<byte>) | exists x :: x in archives && SealedBy(x, pair.0, pair.1)
  }

  /** No nonce is used twice, within an archive or across archives. */
  lemma NoncesAreDistinct(archives: seq<Archive>, j: nat, k: nat, j': nat, k': nat)
    requires Honest(archives) && j < |archives| && j' < |archives|
    requires k < |archives[j].log| && k' < |archives[j'].log|
    requires NonceFor(archives[j].prefix, k, archives[j].log[k].final)
          == NonceFor(archives[j'].prefix, k', archives[j'].log[k'].final)
    ensures j == j' && k == k'
  {
    NonceInjective(archives[j].prefix, k, archives[j].log[k].final,
                   archives[j'].prefix, k', archives[j'].log[k'].final);
  }

  function FramesFrom(a: Aead, x: Archive, i: nat): seq<byte>
    requires |x.prefix| == PREFIX_LEN && i <= |x.log| <= MAX_CHUNKS
    decreases |x.log| - i
  {
    if i == |x.log| then [] else Frame(a, x.prefix, i, x.log[i]) + FramesFrom(a, x, i + 1)
  }

  function PlainFrom(log: seq<Sealed>, i: nat): seq<byte>
    requires i <= |log|
    decreases |log| - i
  {
    if i == |log| then [] else log[i].plain + PlainFrom(log, i + 1)
  }

  lemma {:induction false} SplitAt(a: Aead, x: Archive, i: nat)
    requires |x.prefix| == PREFIX_LEN && i <= |x.log| <= MAX_CHUNKS
    ensures Frames(a, x.prefix, x.log) == Frames(a, x.prefix, x.log[..i]) + FramesFrom(a, x, i)
    ensures Plain(x.log) == Plain(x.log[..i]) + PlainFrom(x.log, i)
    decreases |x.log| - i
  {
    if i == |x.log| {
      assert x.log[..i] == x.log;
    } else {
      SplitAt(a, x, i + 1);
      var before, s := x.log[..i], x.log[i];
      assert x.log[..i + 1] == before + [s];
      FramesAppend(a, x.prefix, before, s);
      PlainAppend(before, s);
      Associative(Frames(a, x.prefix, before), Frame(a, x.prefix, i, s), FramesFrom(a, x, i + 1));
      Associative(Plain(before), s.plain, PlainFrom(x.log, i + 1));
    }
  }

  lemma AllFrames(a: Aead, x: Archive)
    requires |x.prefix| == PREFIX_LEN && |x.log| <= MAX_CHUNKS
    ensures Frames(a, x.prefix, x.log) == FramesFrom(a, x, 0) && Plain(x.log) == PlainFrom(x.log, 0)
  {
    SplitAt(a, x, 0);
    assert x.log[..0] == [];
  }

  /** Every chunk of x is among the logged pairs. */
  ghost predicate Logged(x: Archive, log: iset<(seq<byte>, seq<byte>)>) {
    && |x.prefix| == PREFIX_LEN && |x.log| <= MAX_CHUNKS
    && forall k :: 0 <= k < |x.log| ==> (NonceFor(x.prefix, k, x.log[k].final).value, x.log[k].plain) in log
  }

  /** Chunk i opens as what was sealed, the last one as final only. */
  ghost predicate Opens(a: Aead, x: Archive, i: nat)
    requires |x.prefix| == PREFIX_LEN && i < |x.log| <= MAX_CHUNKS
  {
    var ct := Ciphertext(a, x.prefix, i, x.log[i]);
    && |ct| <= MAX_CIPHERTEXT && x.log[i].final == (i == |x.log| - 1)
    && a.open(NonceFor(x.prefix, i, x.log[i].final).value, ct) == Some(x.log[i].plain)
    && (x.log[i].final ==> a.open(NonceFor(x.prefix, i, false).value, ct).None?)
  }

  lemma {:induction false} OpeningReadsBack(a: Aead, x: Archive, i: nat)
    requires |x.prefix| == PREFIX_LEN && i < |x.log| <= MAX_CHUNKS && forall k :: i <= k < |x.log| ==> Opens(a, x, k)
    ensures DecryptFrom(a, x.prefix, i, FramesFrom(a, x, i)) == Stream(PlainFrom(x.log, i), true)
    decreases |x.log| - i
  {
    var ct := Ciphertext(a, x.prefix, i, x.log[i]);
    assert Opens(a, x, i);
    FrameIsNext(a, x, i, FramesFrom(a, x, i + 1));
    if i < |x.log| - 1 {
      OpeningReadsBack(a, x, i + 1);
      ReadsMiddle(a, x.prefix, i, ct, FramesFrom(a, x, i));
    } else {
      NothingLeft(x.log, i);
      ReadsLast(a, x.prefix, i, ct, FramesFrom(a, x, i));
    }
  }

  /** The reader undoes the writer: from any chunk on, a closed archive reads back as the
      plaintext sealed from there on, then end of stream. */
  lemma ClosedReadsBack(a: Aead, log: iset<(seq<byte>, seq<byte>)>, x: Archive, i: nat)
    requires Ideal(a, log) && Logged(x, log) && ClosedLog(x.log) && i < |x.log|
    ensures DecryptFrom(a, x.prefix, i, FramesFrom(a, x, i)) == Stream(PlainFrom(x.log, i), true)
  {
    forall k | i <= k < |x.log|
      ensures Opens(a, x, k)
    {
      ChunkOpens(a, log, x, k);
    }
    OpeningReadsBack(a, x, i);
  }

  lemma NothingLeft(log: seq<Sealed>, i: nat)
    requires i + 1 == |log|
    ensures PlainFrom(log, i) == log[i].plain
  {
    assert PlainFrom(log, i + 1) == [];
  }

  lemma ReadsMiddle(a: Aead, prefix: seq<byte>, i: nat, ct: seq<byte>, rest: seq<byte>)
    requires |prefix| == PREFIX_LEN && i < MAX_CHUNKS && NextCiphertext(rest) == Some(ct)
    requires a.open(NonceFor(prefix, i, false).value, ct).Some?
    ensures var later := DecryptFrom(a, prefix, i + 1, rest[4 + |ct|..]);
      DecryptFrom(a, prefix, i, rest) ==
        Stream(a.open(NonceFor(prefix, i, false).value, ct).value + later.plain, later.clean)
  {
  }

  lemma ReadsLast(a: Aead, prefix: seq<byte>, i: nat, ct: seq<byte>, rest: seq<byte>)
    requires |prefix| == PREFIX_LEN && i < MAX_CHUNKS && NextCiphertext(rest) == Some(ct) && |rest| == 4 + |ct|
    requires a.open(NonceFor(prefix, i, false).value, ct).None? && a.open(NonceFor(prefix, i, true).value, ct).Some?
    ensures DecryptFrom(a, prefix, i, rest) == Stream(a.open(NonceFor(prefix, i, true).value, ct).value, true)
  {
  }

  lemma ChunkOpens(a: Aead, log: iset<(seq<byte>, seq<byte>)>, x: Archive, i: nat)
    requires Ideal(a, log) && Logged(x, log) && ClosedLog(x.log) && i < |x.log|
    ensures Opens(a, x, i)
  {
    var s := x.log[i];
    var ct := Ciphertext(a, x.prefix, i, s);
    assert i < |x.log| - 1 ==> x.log[..|x.log| - 1][i] == s;
    if s.final && a.open(NonceFor(x.prefix, i, false).value, ct).Some? {
      NonceInjective(x.prefix, i, false, x.prefix, i, true);
    }
  }

  lemma FrameIsNext(a: Aead, x: Archive, i: nat, later: seq<byte>)
    requires |x.prefix| == PREFIX_LEN && i < |x.log| <= MAX_CHUNKS
    requires |Ciphertext(a, x.prefix, i, x.log[i])| <= MAX_CIPHERTEXT
    ensures NextCiphertext(Frame(a, x.prefix, i, x.log[i]) + later) == Some(Ciphertext(a, x.prefix, i, x.log[i]))
    ensures (Frame(a, x.prefix, i, x.log[i]) + later)[4 + |Ciphertext(a, x.prefix, i, x.log[i])|..] == later
  {
    var ct := Ciphertext(a, x.prefix, i, x.log[i]);
    var rest := Frame(a, x.prefix, i, x.log[i]) + later;
    assert rest[..4] == BigEndian(|ct|, 4) && rest[4..4 + |ct|] == ct;
    assert Pow256(4) == 256 * 256 * 256 * 256;
    FromOfBigEndian(|ct|, 4);
  }

  /** A chunk that opens at position i is chunk i of the archive owning the prefix. */
  lemma OpenedIsSealed(a: Aead, archives: seq<Archive>, prefix: seq<byte>, i: nat, final: bool, ct: seq<byte>)
      returns (x: Archive)
    requires Honest(archives) && Ideal(a, SealedPairs(archives))
    requires |prefix| == PREFIX_LEN && i < MAX_CHUNKS
    requires a.open(NonceFor(prefix, i, final).value, ct).Some?
    ensures x in archives && x.prefix == prefix && i < |x.log| <= MAX_CHUNKS && x.log[i].final == final
    ensures ct == Ciphertext(a, prefix, i, x.log[i])
    ensures a.open(NonceFor(prefix, i, final).value, ct) == Some(x.log[i].plain)
    ensures final ==> ClosedLog(x.log) && i == |x.log| - 1
  {
    var n := NonceFor(prefix, i, final).value;
    var p := a.open(n, ct).value;
    x :| x in archives && SealedBy(x, n, p);
    var k :| 0 <= k < |x.log| && x.log[k].plain == p && NonceFor(x.prefix, k, x.log[k].final) == Some(n);
    NonceInjective(prefix, i, final, x.prefix, k, x.log[k].final);
    assert k < |x.log| - 1 ==> x.log[..|x.log| - 1][k] == x.log[k];
  }

  /** What a clean read looks like at its first chunk. */
  lemma CleanShape(a: Aead, prefix: seq<byte>, i: nat, rest: seq<byte>) returns (ct: seq<byte>, final: bool)
    requires |prefix| == PREFIX_LEN && DecryptFrom(a, prefix, i, rest).clean
    ensures |ct| <= MAX_CIPHERTEXT && |rest| >= 4 + |ct| && rest == BigEndian(|ct|, 4) + ct + rest[4 + |ct|..]
    ensures i < MAX_CHUNKS && a.open(NonceFor(prefix, i, final).value, ct).Some?
    ensures if final then rest[4 + |ct|..] == [] else DecryptFrom(a, prefix, i + 1, rest[4 + |ct|..]).clean
  {
    ct := NextCiphertext(rest).value;
    NextCiphertextShape(rest);
    final := a.open(NonceFor(prefix, i, false).value, ct).None?;
  }

  /** Whatever the reader accepts from chunk i on is the rest of one closed archive. */
  lemma {:induction false} CleanIsRestOfArchive(a: Aead, archives: seq<Archive>, prefix: seq<byte>, i: nat,
                                                rest: seq<byte>)
      returns (x: Archive)
    requires Honest(archives) && Ideal(a, SealedPairs(archives)) && |prefix| == PREFIX_LEN
    requires DecryptFrom(a, prefix, i, rest).clean
    ensures x in archives && x.prefix == prefix && ClosedLog(x.log) && i < |x.log|
    ensures rest == FramesFrom(a, x, i)
    decreases |rest|
  {
    var ct, final := CleanShape(a, prefix, i, rest);
    x := OpenedIsSealed(a, archives, prefix, i, final, ct);
    assert Frame(a, prefix, i, x.log[i]) == BigEndian(|ct|, 4) + ct;
    if !final {
      var y := CleanIsRestOfArchive(a, archives, prefix, i + 1, rest[4 + |ct|..]);
      assert x == y;
    } else {
      assert FramesFrom(a, x, i + 1) == [];
    }
  }

  lemma HeaderSplit(w: seq<byte>)
    requires |w| >= |MAGIC| + PREFIX_LEN && w[..|MAGIC|] == MAGIC
    ensures w == Header(w[|MAGIC|..|MAGIC| + PREFIX_LEN]) + w[|MAGIC| + PREFIX_LEN..]
  {
  }

  lemma CleanIsClosedArchive(a: Aead, archives: seq<Archive>, w: seq<byte>) returns (x: Archive)
    requires Honest(archives) && Ideal(a, SealedPairs(archives)) && Decrypt(a, w).clean
    ensures x in archives && ClosedLog(x.log) && w == Wire(a, x.prefix, x.log)
  {
    var cut := |MAGIC| + PREFIX_LEN;
    HeaderSplit(w);
    x := CleanIsRestOfArchive(a, archives, w[|MAGIC|..cut], 0, w[cut..]);
    AllFrames(a, x);
  }

  lemma ArchiveIsLogged(archives: seq<Archive>, x: Archive)
    requires Honest(archives) && x in archives
    ensures Logged(x, SealedPairs(archives))
  {
    forall k | 0 <= k < |x.log|
      ensures SealedBy(x, NonceFor(x.prefix, k, x.log[k].final).value, x.log[k].plain)
    {
    }
  }

  /** MAIN RESULT. Over every byte stream whatever: the reader reports end of stream exactly
      when the stream is, byte for byte, one of the closed archives; and it then hands out
      that archive's plaintext. */
  lemma AcceptedIsOneClosedArchive(a: Aead, archives: seq<Archive>, w: seq<byte>)
    requires Honest(archives) && Ideal(a, SealedPairs(archives))
    ensures Decrypt(a, w).clean <==>
            exists x :: x in archives && ClosedLog(x.log) && w == Wire(a, x.prefix, x.log)
    ensures forall x :: x in archives && ClosedLog(x.log) && w == Wire(a, x.prefix, x.log) ==>
            Decrypt(a, w) == Stream(Plain(x.log), true)
  {
    if Decrypt(a, w).clean {
      var x := CleanIsClosedArchive(a, archives, w);
    }
    forall x | x in archives && ClosedLog(x.log) && w == Wire(a, x.prefix, x.log)
      ensures Decrypt(a, w) == Stream(Plain(x.log), true)
    {
      ArchiveIsLogged(archives, x);
      ClosedArchiveReadsBack(a, SealedPairs(archives), x);
    }
  }

  lemma ClosedArchiveReadsBack(a: Aead, log: iset<(seq<byte>, seq<byte>)>, x: Archive)
    requires Ideal(a, log) && Logged(x, log) && ClosedLog(x.log)
    ensures Decrypt(a, Wire(a, x.prefix, x.log)) == Stream(Plain(x.log), true)
  {
    var w, cut := Wire(a, x.prefix, x.log), |MAGIC| + PREFIX_LEN;
    AllFrames(a, x);
    assert w[..|MAGIC|] == MAGIC && w[|MAGIC|..cut] == x.prefix && w[cut..] == FramesFrom(a, x, 0);
    ClosedReadsBack(a, log, x, 0);
  }

  /** The first n chunks of an archive stand at the front of what is left of a stream from chunk i on,
      and their plaintext from there is this. */
  ghost predicate FrontOf(a: Aead, x: Archive, i: nat, n: nat, rest: seq<byte>, plain: seq<byte>) {
    && |x.prefix| == PREFIX_LEN && i < n <= |x.log| <= MAX_CHUNKS
    && FramesFrom(a, Archive(x.prefix, x.log[..n]), i) <= rest && plain == PlainFrom(x.log[..n], i)
  }

  lemma {:induction false} HandedOutFrom(a: Aead, archives: seq<Archive>, prefix: seq<byte>, i: nat, rest: seq<byte>)
    requires Honest(archives) && Ideal(a, SealedPairs(archives)) && |prefix| == PREFIX_LEN
    ensures HandsOut(a, archives, prefix, i, rest, DecryptFrom(a, prefix, i, rest).plain)
    decreases |rest|
  {
    hide Honest, Ideal, FrontOf, Frame, FramesFrom;
    if NextCiphertext(rest).Some? && i < MAX_CHUNKS {
      var ct := NextCiphertext(rest).value;
      if a.open(NonceFor(prefix, i, false).value, ct).Some? {
        var x := FirstInFront(a, archives, prefix, i, rest, false);
        HandedOutFrom(a, archives, prefix, i + 1, rest[4 + |ct|..]);
        ThenInFront(a, archives, x, i, rest, rest[4 + |ct|..], DecryptFrom(a, prefix, i + 1, rest[4 + |ct|..]).plain);
      } else if a.open(NonceFor(prefix, i, true).value, ct).Some? {
        var x := FirstInFront(a, archives, prefix, i, rest, true);
      }
    }
  }

  /** Nothing, or the front of an archive under this prefix. */
  ghost predicate HandsOut(a: Aead, archives: seq<Archive>, prefix: seq<byte>, i: nat, rest: seq<byte>,
                           plain: seq<byte>) {
    plain == [] || exists x, n :: x in archives && x.prefix == prefix && FrontOf(a, x, i, n, rest, plain)
  }

  lemma FirstInFront(a: Aead, archives: seq<Archive>, prefix: seq<byte>, i: nat, rest: seq<byte>, final: bool)
      returns (x: Archive)
    requires Honest(archives) && Ideal(a, SealedPairs(archives)) && |prefix| == PREFIX_LEN
    requires NextCiphertext(rest).Some? && i < MAX_CHUNKS
    requires a.open(NonceFor(prefix, i, final).value, NextCiphertext(rest).value).Some?
    ensures x in archives && x.prefix == prefix && i < |x.log| <= MAX_CHUNKS
    ensures a.open(NonceFor(prefix, i, final).value, NextCiphertext(rest).value) == Some(x.log[i].plain)
    ensures var f := Frame(a, prefix, i, x.log[i]);
            f <= rest && rest[|f|..] == rest[4 + |NextCiphertext(rest).value|..]
    ensures FrontOf(a, x, i, i + 1, rest, x.log[i].plain)
  {
    var ct := NextCiphertext(rest).value;
    NextCiphertextShape(rest);
    x := OpenedIsSealed(a, archives, prefix, i, final, ct);
    assert Frame(a, prefix, i, x.log[i]) == BigEndian(|ct|, 4) + ct;
    OneInFront(a, x, i, rest);
  }

  lemma ThenInFront(a: Aead, archives: seq<Archive>, x: Archive, i: nat, rest: seq<byte>, after: seq<byte>,
                    later: seq<byte>)
    requires Honest(archives) && x in archives && |x.prefix| == PREFIX_LEN && i < |x.log| <= MAX_CHUNKS
    requires Frame(a, x.prefix, i, x.log[i]) <= rest && after == rest[|Frame(a, x.prefix, i, x.log[i])|..]
    requires FrontOf(a, x, i, i + 1, rest, x.log[i].plain) && HandsOut(a, archives, x.prefix, i + 1, after, later)
    ensures HandsOut(a, archives, x.prefix, i, rest, x.log[i].plain + later)
  {
    hide FrontOf, Frame;
    if later == [] {
      assert x.log[i].plain + [] == x.log[i].plain;
    } else {
      var y, n :| y in archives && y.prefix == x.prefix && FrontOf(a, y, i + 1, n, after, later);
      assert x == y;
      MoreInFront(a, x, i, n, rest, later);
    }
  }

  lemma OneInFront(a: Aead, x: Archive, i: nat, rest: seq<byte>)
    requires |x.prefix| == PREFIX_LEN && i < |x.log| <= MAX_CHUNKS && Frame(a, x.prefix, i, x.log[i]) <= rest
    ensures FrontOf(a, x, i, i + 1, rest, x.log[i].plain)
  {
    var y := Archive(x.prefix, x.log[..i + 1]);
    assert FramesFrom(a, y, i + 1) == [] && PlainFrom(y.log, i + 1) == [] && y.log[i] == x.log[i];
  }

  lemma MoreInFront(a: Aead, x: Archive, i: nat, n: nat, rest: seq<byte>, later: seq<byte>)
    requires |x.prefix| == PREFIX_LEN && i < |x.log| <= MAX_CHUNKS && Frame(a, x.prefix, i, x.log[i]) <= rest
    requires FrontOf(a, x, i + 1, n, rest[|Frame(a, x.prefix, i, x.log[i])|..], later)
    ensures FrontOf(a, x, i, n, rest, x.log[i].plain + later)
  {
    var y := Archive(x.prefix, x.log[..n]);
    var frame, more := Frame(a, x.prefix, i, x.log[i]), FramesFrom(a, y, i + 1);
    assert y.log[i] == x.log[i] && FramesFrom(a, y, i) == frame + more;
    assert rest == frame + rest[|frame|..];
  }

  /** Whatever the bytes: what a reader hands out before it stops is the plaintext of the first chunks
      of one archive, whose sealed bytes stand at the front of the stream. */
  lemma HandedOutIsSealed(a: Aead, archives: seq<Archive>, w: seq<byte>)
    requires Honest(archives) && Ideal(a, SealedPairs(archives))
    ensures Decrypt(a, w).plain == [] || exists x, n: nat ::
      x in archives && |x.prefix| == PREFIX_LEN && n <= |x.log| <= MAX_CHUNKS
      && Wire(a, x.prefix, x.log[..n]) <= w && Decrypt(a, w).plain == Plain(x.log[..n])
  {
    if Decrypt(a, w).plain != [] {
      var cut := |MAGIC| + PREFIX_LEN;
      HandedOutFrom(a, archives, w[|MAGIC|..cut], 0, w[cut..]);
      var x, n :| x in archives && x.prefix == w[|MAGIC|..cut] && FrontOf(a, x, 0, n, w[cut..], Decrypt(a, w).plain);
      FrontIsWire(a, x, n, w, Decrypt(a, w).plain);
    }
  }

  lemma FrontIsWire(a: Aead, x: Archive, n: nat, w: seq<byte>, plain: seq<byte>)
    requires |w| >= |MAGIC| + PREFIX_LEN && w[..|MAGIC|] == MAGIC && x.prefix == w[|MAGIC|..|MAGIC| + PREFIX_LEN]
    requires FrontOf(a, x, 0, n, w[|MAGIC| + PREFIX_LEN..], plain)
    ensures n <= |x.log| <= MAX_CHUNKS && Wire(a, x.prefix, x.log[..n]) <= w && plain == Plain(x.log[..n])
  {
    hide FramesFrom, Frames, PlainFrom, Plain;
    HeaderSplit(w);
    AllFrames(a, Archive(x.prefix, x.log[..n]));
    var rest, front := w[|MAGIC| + PREFIX_LEN..], Frames(a, x.prefix, x.log[..n]);
    assert rest == front + rest[|front|..];
    Associative(Header(x.prefix), front, rest[|front|..]);
  }

  /** An archive's bytes start with its own prefix, so no other archive extends it. */
  lemma WireNamesArchive(a: Aead, archives: seq<Archive>, x: Archive, y: Archive)
    requires Honest(archives) && x in archives && y in archives
    requires Wire(a, y.prefix, y.log) <= Wire(a, x.prefix, x.log)
    ensures x == y
  {
    var w, v := Wire(a, x.prefix, x.log), Wire(a, y.prefix, y.log);
    assert v[|MAGIC|..|MAGIC| + PREFIX_LEN] == y.prefix && w[|MAGIC|..|MAGIC| + PREFIX_LEN] == x.prefix;
  }

  /** Cut anywhere, an archive is refused: no proper byte prefix reads cleanly. */
  lemma ProperPrefixIsRefused(a: Aead, archives: seq<Archive>, x: Archive, cut: nat)
    requires Honest(archives) && Ideal(a, SealedPairs(archives))
    requires x in archives && cut < |Wire(a, x.prefix, x.log)|
    ensures !Decrypt(a, Wire(a, x.prefix, x.log)[..cut]).clean
  {
    AcceptedIsOneClosedArchive(a, archives, Wire(a, x.prefix, x.log)[..cut]);
    forall y | y in archives && ClosedLog(y.log) && Wire(a, y.prefix, y.log) <= Wire(a, x.prefix, x.log)
      ensures x == y
    {
      WireNamesArchive(a, archives, x, y);
    }
  }

  /** A stream whose writer never closed it is refused, however many chunks it holds. */
  lemma UnclosedIsRefused(a: Aead, archives: seq<Archive>, x: Archive)
    requires Honest(archives) && Ideal(a, SealedPairs(archives)) && x in archives && OpenLog(x.log)
    ensures !Decrypt(a, Wire(a, x.prefix, x.log)).clean
  {
    AcceptedIsOneClosedArchive(a, archives, Wire(a, x.prefix, x.log));
    forall y | y in archives && ClosedLog(y.log) && Wire(a, y.prefix, y.log) <= Wire(a, x.prefix, x.log)
      ensures x == y
    {
      WireNamesArchive(a, archives, x, y);
    }
  }

  ghost function EveryPair(): iset<(seq<byte>, seq<byte>)> {
    iset pair: (seq<byte>, seq<byte>) | |pair.0| == NONCE_SIZE
  }

  function Concat(pieces: seq<seq<byte>>): seq<byte> {
    if pieces == [] then [] else Concat(pieces[..|pieces| - 1]) + pieces[|pieces| - 1]
  }

  /** MAIN RESULT. Write any pieces, close, and read back with any nonempty buffers: the
      reader hands out exactly the concatenated pieces and then end of stream. */
  method WriteThenRead(a: Aead, prefix: seq<byte>, pieces: seq<seq<byte>>, accepted: nat -> nat, sizes: nat -> nat)
      returns (written: bool, plain: seq<byte>, clean: bool)
    requires |prefix| == PREFIX_LEN && Ideal(a, EveryPair())
    requires forall k :: sizes(k) > 0
    ensures written ==> clean && plain == Concat(pieces)
    ensures |Concat(pieces)| < ChunkBytes(MAX_CHUNKS) && (forall k :: accepted(k) >= MAX_CIPHERTEXT) ==> written
  {
    var w := new EncryptWriter(a, prefix);
    written := true;
    for i := 0 to |pieces|
      invariant fresh(w) && w.Valid() && !w.closed && !w.broken
      invariant w.data == Concat(pieces[..i])
    {
      ConcatGrows(pieces, i);
      written := w.Write(pieces[i], accepted);
      if !written { return false, [], false; }
    }
    assert pieces[..|pieces|] == pieces;
    written := w.Close(accepted(0));
    if !written { return false, [], false; }
    ClosedArchiveReadsBack(a, EveryPair(), Archive(prefix, w.log));
    var r := OpenStream(a, w.out);
    if r.None? { return; }
    plain, clean := r.value.ReadAll(sizes);
  }

  lemma {:induction false} ConcatGrows(pieces: seq<seq<byte>>, i: nat)
    requires i < |pieces|
    ensures Concat(pieces[..i + 1]) == Concat(pieces[..i]) + pieces[i]
    ensures |Concat(pieces[..i])| + |pieces[i]| <= |Concat(pieces)|
    decreases |pieces| - i
  {
    assert pieces[..i + 1][..i] == pieces[..i];
    if i + 1 < |pieces| {
      ConcatGrows(pieces, i + 1);
    } else {
      assert pieces[..i + 1] == pieces;
    }
  }
}
