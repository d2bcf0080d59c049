/** Agreement on the audit signing key at first boot, and the keyring (internal/audit/keys.go:48-370).
    Any number of processes read, publish and re-read one key file; each file system call is one
    step, and a process may stop for good between any two. */
module AuditKeys {
  import opened Common

  const MIN_KEY := 32

  type Key = seq<byte>

  /** The on-disk form of a key: json.Marshal of the key file, and parseKeyFile. */
  datatype Codec = Codec(encode: Key -> seq<byte>, parse: seq<byte> -> Option<Key>)

  /** What agreement rests on: a written key reads back, and a file cut short does not parse. */
  ghost predicate Sound(c: Codec) {
    && (forall k: Key :: |k| >= MIN_KEY ==> c.parse(c.encode(k)) == Some(k))
    && (forall k: Key, n: nat :: |k| >= MIN_KEY && n < |c.encode(k)| ==> c.parse(c.encode(k)[..n]) == None)
  }

  // ---------------------------------------------------------------- processes and the file

  /** Where one loadOrCreateKeyFile call has got to. */
  datatype Process =
    | Starting
    | Generated(key: Key)               // found no file and made a key of its own
    | Exclusive(key: Key)               // hard links refused: about to create the file itself
    | Writing(key: Key, written: nat)   // created the file, and has written so much of it
    | Rereading
    | Returned(key: Key)
    | Stopped                           // failed, or crashed

  datatype World = World(file: Option<seq<byte>>, procs: seq<Process>)

  /** One file system call of process i, or its death. `fresh` keys are at least 32 bytes. */
  ghost predicate Step(c: Codec, w: World, v: World, i: nat) {
    && i < |w.procs| && |v.procs| == |w.procs|
    && (forall j :: 0 <= j < |w.procs| && j != i ==> v.procs[j] == w.procs[j])
    && Move(c, w.file, w.procs[i], v.file, v.procs[i])
  }

  ghost predicate Move(c: Codec, f: Option<seq<byte>>, p: Process, g: Option<seq<byte>>, q: Process) {
    match p
    case Starting =>
      g == f && (q == Stopped || (if f.None? then q.Generated? && |q.key| >= MIN_KEY else Reads(c, f.value, q)))
    case Generated(key) => (q == Stopped && g == f) || LinkMove(c, f, key, g, q)
    case Exclusive(key) =>
      || (q == Stopped && g == f)
      || (if f.None? then g == Some([]) && q == Writing(key, 0) else g == f && q == Rereading)
    case Writing(key, n) =>
      || (q == Stopped && g == f)
      || (n < |c.encode(key)| && q.Writing? && q.key == key && n < q.written <= |c.encode(key)|
          && g == Some(c.encode(key)[..q.written]))
      || (n == |c.encode(key)| && g == f && q == Rereading)
    case Rereading => g == f && (q == Stopped || (f.Some? && Reads(c, f.value, q)))
    case Returned(_) => false
    case Stopped => false
  }

  /** parseKeyFile: the key, or an error. */
  predicate Reads(c: Codec, raw: seq<byte>, q: Process) {
    q == if c.parse(raw).Some? then Returned(c.parse(raw).value) else Stopped
  }

  /** os.Link: publishes the finished temporary file unless one is there. It may be unsupported
      either way, and the directory sync after it may fail. */
  ghost predicate LinkMove(c: Codec, f: Option<seq<byte>>, key: Key, g: Option<seq<byte>>, q: Process) {
    || (f.None? && g == Some(c.encode(key)) && (q == Rereading || q == Stopped))
    || (f.Some? && g == f && q == Rereading)
    || (g == f && q == Exclusive(key))
  }

  /** Before anyone has started; the file is whatever earlier boots left. */
  ghost predicate Boot(w: World) { forall i :: 0 <= i < |w.procs| ==> w.procs[i] == Starting }

  ghost predicate Next(c: Codec, w: World, v: World) { exists i: nat :: Step(c, w, v, i) }

  ghost predicate Run(c: Codec, run: seq<World>) {
    && run != [] && Boot(run[0])
    && forall t {:trigger run[t]} :: 0 < t < |run| ==> Next(c, run[t - 1], run[t])
  }

  // ---------------------------------------------------------------- what every step keeps

  /** The writer, if there is one, is alone, and the file is what it has written so far. */
  ghost predicate WriterAlone(c: Codec, w: World) {
    forall i :: 0 <= i < |w.procs| && w.procs[i].Writing? ==>
      && w.procs[i].written <= |c.encode(w.procs[i].key)|
      && w.file == Some(c.encode(w.procs[i].key)[..w.procs[i].written])
      && forall j :: 0 <= j < |w.procs| && w.procs[j].Writing? ==> j == i
  }

  predicate MadeKey(p: Process) { p.Generated? || p.Exclusive? || p.Writing? }

  ghost predicate RealKeys(w: World) {
    forall i :: 0 <= i < |w.procs| && MadeKey(w.procs[i]) ==> |w.procs[i].key| >= MIN_KEY
  }

  /** Whoever has returned, returned the key in the file. */
  ghost predicate ReturnedTheFile(c: Codec, w: World) {
    forall i :: 0 <= i < |w.procs| && w.procs[i].Returned? ==>
      w.file.Some? && c.parse(w.file.value) == Some(w.procs[i].key)
  }

  ghost predicate Invariant(c: Codec, w: World) {
    WriterAlone(c, w) && RealKeys(w) && ReturnedTheFile(c, w)
  }

  /** A file is created once and then only grows, under its creator, until it is a whole key. */
  ghost predicate NeverReplaced(c: Codec, f: Option<seq<byte>>, g: Option<seq<byte>>) {
    f.Some? ==> g.Some? && f.value <= g.value && (c.parse(f.value).Some? ==> g == f)
  }

  /** Only the writer of an unfinished file changes an existing one. */
  lemma FileAfter(c: Codec, w: World, v: World, i: nat)
    requires Sound(c) && Invariant(c, w) && Step(c, w, v, i)
    ensures NeverReplaced(c, w.file, v.file)
    ensures v.file != w.file ==> w.file.None? || (w.procs[i].Writing? && c.parse(w.file.value).None?)
  {
    var p := w.procs[i];
    if p.Writing? && v.file != w.file {
      var text, n, n' := c.encode(p.key), p.written, v.procs[i].written;
      assert |p.key| >= MIN_KEY && n < |text|;
      assert text[..n'][..n] == text[..n];
      assert c.parse(text[..n]) == None;
    }
  }

  lemma StepKeepsWriter(c: Codec, w: World, v: World, i: nat)
    requires Sound(c) && Invariant(c, w) && Step(c, w, v, i)
    ensures WriterAlone(c, v) && RealKeys(v)
  {
    FileAfter(c, w, v, i);
    forall j | 0 <= j < |v.procs| && v.procs[j].Writing?
      ensures v.procs[j].written <= |c.encode(v.procs[j].key)|
      ensures v.file == Some(c.encode(v.procs[j].key)[..v.procs[j].written])
      ensures forall k :: 0 <= k < |v.procs| && v.procs[k].Writing? ==> k == j
    {
      if j != i {
        assert w.procs[j].Writing? && w.file.Some?;
        assert w.procs[i].Writing? ==> i == j;
      }
      if w.procs[i].Exclusive? && v.procs[i].Writing? { assert c.encode(v.procs[i].key)[..0] == []; }
    }
  }

  lemma StepKeepsReturned(c: Codec, w: World, v: World, i: nat)
    requires Sound(c) && Invariant(c, w) && Step(c, w, v, i)
    ensures ReturnedTheFile(c, v)
  {
    FileAfter(c, w, v, i);
    forall j | 0 <= j < |v.procs| && v.procs[j].Returned?
      ensures v.file.Some? && c.parse(v.file.value) == Some(v.procs[j].key)
    {
      if j != i { assert w.procs[j].Returned?; }
    }
  }

  lemma {:induction false} RunKeeps(c: Codec, run: seq<World>, t: nat)
    requires Sound(c) && Run(c, run) && t < |run|
    ensures Invariant(c, run[t])
  {
    if t > 0 {
      RunKeeps(c, run, t - 1);
      assert Next(c, run[t - 1], run[t]);
      var i: nat :| Step(c, run[t - 1], run[t], i);
      StepKeepsWriter(c, run[t - 1], run[t], i);
      StepKeepsReturned(c, run[t - 1], run[t], i);
    }
  }

  /** MAIN RESULT. However the calls of any number of processes interleave, hard links or not,
      with partial writes in view and crashes anywhere: all that return return one key, the one
      in the file. */
  lemma OneKey(c: Codec, run: seq<World>, s: nat, t: nat, i: nat, j: nat)
    requires Sound(c) && Run(c, run) && s <= t < |run| && i < |run[s].procs| && j < |run[t].procs|
    requires run[s].procs[i].Returned? && run[t].procs[j].Returned?
    ensures run[s].procs[i].key == run[t].procs[j].key
    ensures run[t].file.Some? && c.parse(run[t].file.value) == Some(run[t].procs[j].key)
  {
    RunKeeps(c, run, s);
    RunKeeps(c, run, t);
    PublishedForGood(c, run, s, t);
  }

  /** MAIN RESULT. A key file, once it holds a key, never changes again; before that it only grows. */
  lemma {:induction false} PublishedForGood(c: Codec, run: seq<World>, s: nat, t: nat)
    requires Sound(c) && Run(c, run) && s <= t < |run|
    ensures NeverReplaced(c, run[s].file, run[t].file)
    decreases t - s
  {
    if s < t {
      PublishedForGood(c, run, s, t - 1);
      RunKeeps(c, run, t - 1);
      assert Next(c, run[t - 1], run[t]);
      var i: nat :| Step(c, run[t - 1], run[t], i);
      FileAfter(c, run[t - 1], run[t], i);
    }
  }

  /** Two processes that both found no file: the one that links second returns the first one's key. */
  lemma LoserReturnsTheWinnersKey(c: Codec, a: Key, b: Key) returns (run: seq<World>)
    requires Sound(c) && |a| >= MIN_KEY && |b| >= MIN_KEY
    ensures Run(c, run) && run[|run| - 1] == World(Some(c.encode(a)), [Returned(a), Returned(a)])
    ensures exists t :: 0 <= t < |run| && run[t].procs == [Generated(a), Generated(b)]
  {
    var text := Some(c.encode(a));
    run := [World(None, [Starting, Starting]), World(None, [Generated(a), Starting]),
            World(None, [Generated(a), Generated(b)]),
            World(text, [Rereading, Generated(b)]), World(text, [Rereading, Rereading]),
            World(text, [Returned(a), Rereading]), World(text, [Returned(a), Returned(a)])];
    assert Step(c, run[0], run[1], 0) && Step(c, run[1], run[2], 1) && Step(c, run[2], run[3], 0);
    assert Step(c, run[3], run[4], 1) && Step(c, run[4], run[5], 0) && Step(c, run[5], run[6], 1);
  }

  // ---------------------------------------------------------------- such codecs exist

  /** Each byte marked, and an end mark. */
  function Marked(k: Key): seq<byte> {
    if k == [] then [0] else [1, k[0]] + Marked(k[1..])
  }

  function Unmarked(s: seq<byte>): Option<Key> {
    if s == [0] then Some([])
    else if |s| >= 2 && s[0] == 1 then
      var rest := Unmarked(s[2..]);
      if rest.Some? then Some([s[1]] + rest.value) else None
    else None
  }

  lemma {:induction false} MarkedReadsBack(k: Key, n: nat)
    requires n <= |Marked(k)|
    ensures Unmarked(Marked(k)[..n]) == if n == |Marked(k)| then Some(k) else None
  {
    var m := Marked(k);
    if k == [] {
      assert m[..1] == [0];
    } else {
      assert m[2..] == Marked(k[1..]) && m[0] == 1 && m[1] == k[0];
      if n >= 2 {
        MarkedReadsBack(k[1..], n - 2);
        var s := m[..n];
        assert s[2..] == Marked(k[1..])[..n - 2] && s[0] == 1 && s != [0];
        assert [k[0]] + k[1..] == k;
      } else if n == 1 {
        assert m[..1] == [1] && m[..1][0] != [0][0];
      }
    }
  }

  lemma SoundCodecExists() returns (c: Codec)
    ensures Sound(c)
  {
    c := Codec(Marked, Unmarked);
    forall k: Key, n: nat | n <= |Marked(k)|
      ensures Unmarked(Marked(k)[..n]) == if n == |Marked(k)| then Some(k) else None
    {
      MarkedReadsBack(k, n);
    }
    forall k: Key
      ensures Unmarked(Marked(k)) == Some(k)
    {
      assert Marked(k)[..|Marked(k)|] == Marked(k);
    }
  }

  // ---------------------------------------------------------------- the keyring

  /** One OBSERVE_AUDIT_KEYRING entry: not of the form id:key, or an id and the key its text
      stands for, if it stands for one. */
  datatype KeyEntry = Blank | Malformed | KeyEntry(id: string, key: Option<Key>)

  datatype KeyError = BadEntry(at: nat) | Ambiguous(id: string)

  predicate KeyIdShape(id: string) {
    1 <= |id| <= 32 && forall i :: 0 <= i < |id| ==> 'a' <= id[i] <= 'z' || '0' <= id[i] <= '9'
  }

  predicate EntryOk(e: KeyEntry, keyId: Key -> string) {
    match e
    case Blank => true
    case Malformed => false
    case KeyEntry(id, key) => KeyIdShape(id) && key.Some? && keyId(key.value) == id
  }

  /** The historical keys, in order. */
  function Historical(entries: seq<KeyEntry>): seq<Key> {
    if entries == [] then [] else With(Historical(entries[..|entries| - 1]), entries[|entries| - 1])
  }

  function With(keys: seq<Key>, e: KeyEntry): seq<Key> {
    if e.KeyEntry? && e.key.Some? then keys + [e.key.value] else keys
  }

  function Known(entries: seq<KeyEntry>, signer: Option<Key>): seq<Key> {
    Historical(entries) + if signer.Some? then [signer.value] else []
  }

  /** No two different keys share an id. */
  ghost predicate Unambiguous(keys: seq<Key>, keyId: Key -> string) {
    forall i, j :: 0 <= i < |keys| && 0 <= j < |keys| && keyId(keys[i]) == keyId(keys[j]) ==> keys[i] == keys[j]
  }

  /** Every key is found under its id, and nothing else is. */
  ghost predicate Names(verify: map<string, Key>, keys: seq<Key>, keyId: Key -> string) {
    && (forall k :: k in keys ==> keyId(k) in verify && verify[keyId(k)] == k)
    && (forall id :: id in verify ==> verify[id] in keys && keyId(verify[id]) == id)
  }

  /** The key is given by an entry, or is the signer's. */
  ghost predicate IsGiven(entries: seq<KeyEntry>, signer: Option<Key>, k: Key) {
    signer == Some(k) || exists e :: e in entries && e.KeyEntry? && e.key == Some(k)
  }

  lemma {:induction false} HistoricalAre(entries: seq<KeyEntry>)
    ensures forall k :: k in Historical(entries) <==> exists e :: e in entries && e.KeyEntry? && e.key == Some(k)
  {
    if entries != [] {
      var front, last := entries[..|entries| - 1], entries[|entries| - 1];
      HistoricalAre(front);
      assert forall e :: e in entries <==> e in front || e == last;
      forall k
        ensures k in Historical(entries) <==> exists e :: e in entries && e.KeyEntry? && e.key == Some(k)
      {
        if k in Historical(front) {
          var e :| e in front && e.KeyEntry? && e.key == Some(k);
          assert e in entries;
        }
      }
    }
  }

  /** A well-formed entry names the key it carries, in one to thirty-two lower-case letters and digits. */
  ghost predicate GoodEntry(e: KeyEntry, keyId: Key -> string) {
    && !e.Malformed?
    && (e.KeyEntry? ==>
          && 1 <= |e.id| <= 32 && (forall c :: c in e.id ==> 'a' <= c <= 'z' || '0' <= c <= '9')
          && e.key.Some? && keyId(e.key.value) == e.id)
  }

  lemma GoodEntryIs(e: KeyEntry, keyId: Key -> string)
    ensures EntryOk(e, keyId) <==> GoodEntry(e, keyId)
  {
    if e.KeyEntry? { assert forall i :: 0 <= i < |e.id| ==> e.id[i] in e.id; }
  }

  /** The keyring that is loaded, entry by entry and key by key. */
  lemma LoadedIs(entries: seq<KeyEntry>, signer: Option<Key>, keyId: Key -> string)
    ensures (forall i :: 0 <= i < |entries| ==> EntryOk(entries[i], keyId)) <==>
            forall e :: e in entries ==> GoodEntry(e, keyId)
    ensures forall k :: k in Known(entries, signer) <==> IsGiven(entries, signer, k)
    ensures Unambiguous(Known(entries, signer), keyId) <==>
            forall a, b :: IsGiven(entries, signer, a) && IsGiven(entries, signer, b) && keyId(a) == keyId(b) ==> a == b
  {
    HistoricalAre(entries);
    forall e {
      GoodEntryIs(e, keyId);
    }
    assert forall i :: 0 <= i < |entries| ==> entries[i] in entries;
    var keys := Known(entries, signer);
    assert forall k :: k in keys <==> exists i :: 0 <= i < |keys| && keys[i] == k;
    forall k
      ensures k in keys <==> IsGiven(entries, signer, k)
    {
    }
  }

  /** putVerificationKey: refuses exactly a different key under a taken id. */
  method PutVerificationKey(verify: map<string, Key>, id: string, key: Key, ghost keys: seq<Key>,
                            ghost keyId: Key -> string)
      returns (r: Option<map<string, Key>>)
    requires Names(verify, keys, keyId) && keyId(key) == id
    ensures r.None? <==> id in verify && verify[id] != key
    ensures r.None? ==> !Unambiguous(keys + [key], keyId)
    ensures r.Some? ==> r.value == verify[id := key] && Names(r.value, keys + [key], keyId)
  {
    if id in verify && verify[id] != key {
      ghost var i :| 0 <= i < |keys| && keys[i] == verify[id];
      assert (keys + [key])[i] == keys[i] && (keys + [key])[|keys|] == key;
      return None;
    }
    r := Some(verify[id := key]);
  }

  lemma NamesUnambiguous(verify: map<string, Key>, keys: seq<Key>, keyId: Key -> string)
    requires Names(verify, keys, keyId)
    ensures Unambiguous(keys, keyId)
  {
    forall i, j | 0 <= i < |keys| && 0 <= j < |keys| && keyId(keys[i]) == keyId(keys[j])
      ensures keys[i] == keys[j]
    {
      assert keys[i] in keys && keys[j] in keys;
    }
  }

  lemma MoreIsNoLessAmbiguous(keys: seq<Key>, more: seq<Key>, keyId: Key -> string)
    requires Unambiguous(keys + more, keyId)
    ensures Unambiguous(keys, keyId)
  {
    forall i, j | 0 <= i < |keys| && 0 <= j < |keys| && keyId(keys[i]) == keyId(keys[j])
      ensures keys[i] == keys[j]
    {
      assert (keys + more)[i] == keys[i] && (keys + more)[j] == keys[j];
    }
  }

  lemma {:induction false} AmbiguityStays(entries: seq<KeyEntry>, n: nat, keyId: Key -> string)
    requires n <= |entries| && Unambiguous(Historical(entries), keyId)
    ensures Unambiguous(Historical(entries[..n]), keyId)
    decreases |entries|
  {
    if n == |entries| {
      assert entries[..n] == entries;
    } else {
      var front := entries[..|entries| - 1];
      assert front[..n] == entries[..n];
      MoreIsNoLessAmbiguous(Historical(front), Historical(entries)[|Historical(front)|..], keyId);
      AmbiguityStays(front, n, keyId);
    }
  }

  lemma NextHistorical(entries: seq<KeyEntry>, i: nat)
    requires i < |entries|
    ensures Historical(entries[..i + 1]) == With(Historical(entries[..i]), entries[i])
  {
    assert entries[..i + 1][..i] == entries[..i];
  }

  lemma AllHistorical(entries: seq<KeyEntry>)
    ensures Historical(entries[..|entries|]) == Historical(entries)
  {
    assert entries[..|entries|] == entries;
  }

  /** One id for two keys among the first entries is one among all. */
  lemma StaysAmbiguous(entries: seq<KeyEntry>, i: nat, keyId: Key -> string)
    requires i <= |entries| && !Unambiguous(Historical(entries[..i]), keyId)
    ensures !Unambiguous(Historical(entries), keyId)
  {
    if Unambiguous(Historical(entries), keyId) { AmbiguityStays(entries, i, keyId); }
  }

  /** The body of that loop: one entry, number n of the list. */
  method LoadEntry(verify: map<string, Key>, e: KeyEntry, n: nat, keyId: Key -> string, ghost keys: seq<Key>)
      returns (r: Result<map<string, Key>, KeyError>)
    requires Names(verify, keys, keyId)
    ensures r.Ok? ==> EntryOk(e, keyId) && Names(r.value, With(keys, e), keyId)
    ensures r.Err? ==> !EntryOk(e, keyId) || !Unambiguous(With(keys, e), keyId)
    ensures r.Err? && r.error.BadEntry? ==> r.error.at == n && !EntryOk(e, keyId)
  {
    match e
    case Blank => r := Ok(verify);
    case Malformed => r := Err(BadEntry(n));
    case KeyEntry(id, key) =>
      if !KeyIdShape(id) || key.None? || keyId(key.value) != id { return Err(BadEntry(n)); }
      var put := PutVerificationKey(verify, id, key.value, keys, keyId);
      r := if put.None? then Err(Ambiguous(id)) else Ok(put.value);
  }

  /** The OBSERVE_AUDIT_KEYRING loop. */
  method LoadHistorical(entries: seq<KeyEntry>, keyId: Key -> string) returns (r: Result<map<string, Key>, KeyError>)
    ensures r.Ok? <==>
      (forall i :: 0 <= i < |entries| ==> EntryOk(entries[i], keyId)) && Unambiguous(Historical(entries), keyId)
    ensures r.Ok? ==> Names(r.value, Historical(entries), keyId)
    ensures r.Err? && r.error.BadEntry? ==>
      1 <= r.error.at <= |entries| && !EntryOk(entries[r.error.at - 1], keyId)
  {
    var verify: map<string, Key> := map[];
    for i := 0 to |entries|
      invariant forall j :: 0 <= j < i ==> EntryOk(entries[j], keyId)
      invariant Names(verify, Historical(entries[..i]), keyId)
    {
      NextHistorical(entries, i);
      var one := LoadEntry(verify, entries[i], i + 1, keyId, Historical(entries[..i]));
      if one.Err? {
        if !Unambiguous(Historical(entries[..i + 1]), keyId) { StaysAmbiguous(entries, i + 1, keyId); }
        return one;
      }
      verify := one.value;
    }
    AllHistorical(entries);
    NamesUnambiguous(verify, Historical(entries), keyId);
    r := Ok(verify);
  }

  /** LoadKeyring, from the parsed entries and the resolved signer on. It succeeds exactly when
      every entry names the key it carries and no id is ambiguous; then each id finds its key. */
  method LoadKeyring(entries: seq<KeyEntry>, signer: Option<Key>, keyId: Key -> string)
      returns (r: Result<map<string, Key>, KeyError>)
    ensures r.Ok? <==>
      (forall i :: 0 <= i < |entries| ==> EntryOk(entries[i], keyId)) && Unambiguous(Known(entries, signer), keyId)
    ensures r.Ok? ==> Names(r.value, Known(entries, signer), keyId)
    ensures r.Ok? <==> (&& (forall e :: e in entries ==> GoodEntry(e, keyId))
                        && forall a, b :: (IsGiven(entries, signer, a) && IsGiven(entries, signer, b)
                                           && keyId(a) == keyId(b)) ==> a == b)
    ensures r.Ok? ==> forall k :: IsGiven(entries, signer, k) ==> keyId(k) in r.value && r.value[keyId(k)] == k
    ensures r.Ok? ==> forall id :: id in r.value ==> IsGiven(entries, signer, r.value[id]) && keyId(r.value[id]) == id
    ensures r.Err? && r.error.BadEntry? ==>
      1 <= r.error.at <= |entries| && !GoodEntry(entries[r.error.at - 1], keyId)
  {
    LoadedIs(entries, signer, keyId);
    forall e {
      GoodEntryIs(e, keyId);
    }
    r := LoadHistorical(entries, keyId);
    if Unambiguous(Known(entries, signer), keyId) {
      MoreIsNoLessAmbiguous(Historical(entries), if signer.Some? then [signer.value] else [], keyId);
    }
    if r.Err? { return; }
    if signer.Some? {
      var put := PutVerificationKey(r.value, keyId(signer.value), signer.value, Historical(entries), keyId);
      if put.None? { return Err(Ambiguous(keyId(signer.value))); }
      r := Ok(put.value);
    } else {
      assert Historical(entries) + [] == Historical(entries);
    }
    NamesUnambiguous(r.value, Known(entries, signer), keyId);
  }
}
