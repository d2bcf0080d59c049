/** The source-map namespace of the key-value store (internal/backup/kvsrcmap.go): key shapes,
    the sites its blob keys name, and what an atomic read of the namespace would hold. */
module KvNamespace {
  import opened Common

  const NS := "srcmap:"

  /** One state of the store. String keys live apart from sets and sorted sets. */
  datatype Kv = Kv(strings: map<string, seq<byte>>, sets: map<string, set<string>>,
                   zsets: map<string, map<string, real>>)

  /** A key's archived content. */
  datatype Content = Str(value: seq<byte>) | Members(members: set<string>) | Scores(scores: map<string, real>)

  datatype KvLine = KvLine(key: string, content: Content)

  datatype KeyType = StringKey | SetKey | ZSetKey

  function TrimPrefix(s: string, p: string): string { if p <= s then s[|p|..] else s }

  /** The part before the first occurrence of c, or all of it. */
  function Before(s: string, c: char): string {
    if s == [] || s[0] == c then [] else [s[0]] + Before(s[1..], c)
  }

  /** kvSrcmapType. */
  function TypeOf(key: string): KeyType {
    var rest := TrimPrefix(key, NS);
    if "relage:" <= rest then ZSetKey
    else if "releases:" <= rest then SetKey
    else StringKey
  }

  predicate Reserved(component: string) { component == "v2" || component == "releases" || component == "relage" }

  /** The site a blob key belongs to; `decode` is unpadded URL-safe base64. */
  function SiteOf(decode: string -> Option<string>, key: string): Option<string> {
    var rest := TrimPrefix(key, NS);
    if "v2:" <= rest then
      match decode(Before(rest[3..], ':'))
      case None => None
      case Some(s) => if s != "" && !Reserved(s) then Some(s) else None
    else
      var site := Before(rest, ':');
      if site != "" && !Reserved(site) then Some(site) else None
  }

  function ReleasesKey(site: string): string { "srcmap:releases:" + site }

  function RelageKey(site: string): string { "srcmap:relage:" + site }

  /** KV_KEYS("srcmap:*"): string keys only. */
  function Listed(kv: Kv): set<string> { set k | k in kv.strings && NS <= k }

  function SitesOf(decode: string -> Option<string>, keys: set<string>): set<string> {
    set k | k in keys && SiteOf(decode, k).Some? :: SiteOf(decode, k).value
  }

  function IndexKeys(sites: set<string>): set<string> {
    (set s | s in sites :: ReleasesKey(s)) + (set s | s in sites :: RelageKey(s))
  }

  /** Every key a read visits: the listed ones and the index keys of their sites. */
  function Visited(decode: string -> Option<string>, listed: set<string>): set<string> {
    listed + IndexKeys(SitesOf(decode, listed))
  }

  /** A key's content as its type reads it; nothing for an absent blob or an empty index. */
  function Observe(kv: Kv, key: string): Option<Content> {
    match TypeOf(key)
    case StringKey => if key in kv.strings then Some(Str(kv.strings[key])) else None
    case SetKey => if key in kv.sets && kv.sets[key] != {} then Some(Members(kv.sets[key])) else None
    case ZSetKey => if key in kv.zsets && kv.zsets[key] != map[] then Some(Scores(kv.zsets[key])) else None
  }

  /** The covered namespace at one instant. */
  function Covered(decode: string -> Option<string>, kv: Kv): map<string, Content> {
    map k | k in Visited(decode, Listed(kv)) && Observe(kv, k).Some? :: Observe(kv, k).value
  }

  // ---------------------------------------------------------------- what is covered, key by key

  /** The first component of a name: what stands before its first colon, or all of it. */
  predicate FirstComponent(name: string, c: string) {
    c <= name && ':' !in c && (|c| == |name| || name[|c|] == ':')
  }

  /** A listed key names a site: encoded after "srcmap:v2:", or as it is after "srcmap:". */
  ghost predicate Names(decode: string -> Option<string>, key: string, site: string) {
    && site != "" && site != "v2" && site != "releases" && site != "relage"
    && (if "srcmap:v2:" <= key then exists enc :: FirstComponent(key[10..], enc) && decode(enc) == Some(site)
        else "srcmap:" <= key && FirstComponent(key[7..], site))
  }

  lemma {:induction false} BeforeIs(s: string, c: string)
    ensures FirstComponent(s, c) <==> c == Before(s, ':')
  {
    if s != [] && s[0] != ':' {
      BeforeIs(s[1..], Before(s[1..], ':'));
      if FirstComponent(s, c) {
        if c == [] {
          assert false;
        } else {
          assert c[1..] <= s[1..] && forall x :: x in c[1..] ==> x in c;
          BeforeIs(s[1..], c[1..]);
        }
      }
    }
  }

  /** The site of a listed key is the one its name holds. */
  lemma SiteIs(decode: string -> Option<string>, key: string, site: string)
    requires NS <= key
    ensures SiteOf(decode, key) == Some(site) <==> Names(decode, key, site)
  {
    assert "srcmap:v2:" == NS + "v2:";
    if "v2:" <= key[7..] { assert key == NS + "v2:" + key[10..]; }
    if "srcmap:v2:" <= key {
      var name := key[10..];
      assert key[7..] == "v2:" + name;
      forall enc {
        BeforeIs(name, enc);
      }
    } else {
      BeforeIs(key[7..], site);
    }
  }

  /** The two forms a blob key is written in. */
  lemma BlobKeys(decode: string -> Option<string>, enc: string, site: string, tail: string)
    requires ':' !in site && site != "" && !Reserved(site)
    ensures Names(decode, "srcmap:" + site + ":" + tail, site)
    ensures ':' !in enc && decode(enc) == Some(site) ==> Names(decode, "srcmap:v2:" + enc + ":" + tail, site)
  {
    var plain, encoded := "srcmap:" + site + ":" + tail, "srcmap:v2:" + enc + ":" + tail;
    assert plain[7..] == site + ":" + tail && encoded[10..] == enc + ":" + tail;
    assert "srcmap:v2:" <= encoded;
    if "srcmap:v2:" <= plain {
      assert plain[7..] == "v2:" + plain[10..];
      BeforeIs(plain[7..], site);
      BeforeIs(plain[7..], "v2");
    }
    assert FirstComponent(plain[7..], site);
    if ':' !in enc { assert FirstComponent(encoded[10..], enc); }
  }

  /** Some listed key names the site. */
  ghost predicate Named(decode: string -> Option<string>, listed: set<string>, site: string) {
    exists b :: b in listed && Names(decode, b, site)
  }

  lemma SitesAreNamed(decode: string -> Option<string>, listed: set<string>)
    requires forall k :: k in listed ==> NS <= k
    ensures forall site :: site in SitesOf(decode, listed) <==> Named(decode, listed, site)
  {
    forall k, site | k in listed
      ensures SiteOf(decode, k) == Some(site) <==> Names(decode, k, site)
    {
      SiteIs(decode, k, site);
    }
  }

  /** A read visits the listed keys and both index keys of every site they name, and nothing else. */
  lemma VisitedIs(decode: string -> Option<string>, listed: set<string>)
    requires forall k :: k in listed ==> NS <= k
    ensures forall k :: k in Visited(decode, listed) <==>
      k in listed || exists s :: Named(decode, listed, s) && (k == "srcmap:releases:" + s || k == "srcmap:relage:" + s)
  {
    SitesAreNamed(decode, listed);
  }

  /** `m` is exactly what the store holds of the namespace: every listed blob; of every site a blob
      names the set of releases and their ages, unless empty; and nothing else. A listed key shaped
      like an index key is read as that index. */
  ghost predicate IsNamespace(decode: string -> Option<string>, kv: Kv, m: map<string, Content>) {
    var listed := set k | k in kv.strings && "srcmap:" <= k;
    && (forall k :: k in listed && !("srcmap:releases:" <= k) && !("srcmap:relage:" <= k) ==>
          k in m && m[k] == Str(kv.strings[k]))
    && (forall site :: Named(decode, listed, site) ==>
          && var releases, ages := "srcmap:releases:" + site, "srcmap:relage:" + site;
          && (if releases in kv.sets && kv.sets[releases] != {}
              then releases in m && m[releases] == Members(kv.sets[releases]) else releases !in m)
          && (if ages in kv.zsets && kv.zsets[ages] != map[]
              then ages in m && m[ages] == Scores(kv.zsets[ages]) else ages !in m))
    && (forall k :: k in m && k !in listed ==> exists site ::
          Named(decode, listed, site) && (k == "srcmap:releases:" + site || k == "srcmap:relage:" + site))
  }

  lemma TypeIs(key: string)
    requires NS <= key
    ensures TypeOf(key) == if "srcmap:relage:" <= key then ZSetKey
                           else if "srcmap:releases:" <= key then SetKey else StringKey
  {
    var rest := key[7..];
    assert key == NS + rest && "srcmap:relage:" == NS + "relage:" && "srcmap:releases:" == NS + "releases:";
    if "relage:" <= rest { assert key == "srcmap:relage:" + rest[7..]; }
    if "releases:" <= rest { assert key == "srcmap:releases:" + rest[9..]; }
    if "srcmap:relage:" <= key { assert rest == "relage:" + key[14..]; }
    if "srcmap:releases:" <= key { assert rest == "releases:" + key[16..]; }
  }

  lemma IndexTypes(site: string)
    ensures TypeOf("srcmap:releases:" + site) == SetKey && TypeOf("srcmap:relage:" + site) == ZSetKey
  {
    var r, a := "srcmap:releases:" + site, "srcmap:relage:" + site;
    assert "srcmap:releases:" <= r && "srcmap:relage:" <= a;
    assert NS <= "srcmap:releases:" && NS <= "srcmap:relage:";
    assert r[10] == 'e' && r[9] == 'l' && a[9] == 'l' && r[11] == 'a' && a[10] == 'a';
    TypeIs(r);
    TypeIs(a);
  }

  lemma BlobCovered(decode: string -> Option<string>, kv: Kv, k: string)
    requires k in kv.strings && NS <= k && !("srcmap:releases:" <= k) && !("srcmap:relage:" <= k)
    ensures k in Covered(decode, kv) && Covered(decode, kv)[k] == Str(kv.strings[k])
  {
    hide SitesOf, TypeOf;
    TypeIs(k);
    assert k in Listed(kv);
  }

  lemma IndexCovered(decode: string -> Option<string>, kv: Kv, site: string)
    requires Named(decode, Listed(kv), site)
    ensures var releases, ages, m := "srcmap:releases:" + site, "srcmap:relage:" + site, Covered(decode, kv);
            && (if releases in kv.sets && kv.sets[releases] != {}
                then releases in m && m[releases] == Members(kv.sets[releases]) else releases !in m)
            && (if ages in kv.zsets && kv.zsets[ages] != map[]
                then ages in m && m[ages] == Scores(kv.zsets[ages]) else ages !in m)
  {
    hide TypeOf, Named;
    VisitedIs(decode, Listed(kv));
    IndexTypes(site);
  }

  lemma OnlyNamedCovered(decode: string -> Option<string>, kv: Kv, k: string)
    requires k in Covered(decode, kv) && k !in Listed(kv)
    ensures exists site ::
      Named(decode, Listed(kv), site) && (k == "srcmap:releases:" + site || k == "srcmap:relage:" + site)
  {
    hide Named, Observe;
    VisitedIs(decode, Listed(kv));
  }

  /** The covered namespace is the namespace. */
  lemma CoveredIsNamespace(decode: string -> Option<string>, kv: Kv)
    ensures IsNamespace(decode, kv, Covered(decode, kv))
  {
    hide Covered, Named;
    assert Listed(kv) == set k | k in kv.strings && "srcmap:" <= k;
    forall k | k in Listed(kv) && !("srcmap:releases:" <= k) && !("srcmap:relage:" <= k)
      ensures k in Covered(decode, kv) && Covered(decode, kv)[k] == Str(kv.strings[k])
    {
      BlobCovered(decode, kv, k);
    }
    forall site | Named(decode, Listed(kv), site) {
      IndexCovered(decode, kv, site);
    }
    forall k | k in Covered(decode, kv) && k !in Listed(kv)
      ensures exists site ::
        Named(decode, Listed(kv), site) && (k == "srcmap:releases:" + site || k == "srcmap:relage:" + site)
    {
      OnlyNamedCovered(decode, kv, k);
    }
  }

  /** Blob keys are never shaped like index keys: site ids are generated by the system. */
  ghost predicate OwnNames(kv: Kv) {
    forall k :: k in Listed(kv) ==> TypeOf(k) == StringKey
  }

  function KeysOf(lines: seq<KvLine>): (r: seq<string>)
    ensures |r| == |lines| && forall i :: 0 <= i < |r| ==> r[i] == lines[i].key
  {
    seq(|lines|, i requires 0 <= i < |lines| => lines[i].key)
  }

  /** The lines of an archive section as a map. */
  function LineMap(lines: seq<KvLine>): map<string, Content> {
    if lines == [] then map[]
    else LineMap(lines[..|lines| - 1])[lines[|lines| - 1].key := lines[|lines| - 1].content]
  }

  lemma {:induction false} LineMapKeys(lines: seq<KvLine>)
    ensures forall k :: k in LineMap(lines) <==> k in KeysOf(lines)
  {
    if lines != [] {
      var front, last := lines[..|lines| - 1], lines[|lines| - 1];
      LineMapKeys(front);
      assert KeysOf(lines) == KeysOf(front) + [last.key];
    }
  }

  /** Without repeated keys, every line is found under its key. */
  lemma {:induction false} LineFound(a: seq<KvLine>, i: nat)
    requires NoRepeats(KeysOf(a)) && i < |a|
    ensures a[i].key in LineMap(a) && LineMap(a)[a[i].key] == a[i].content
  {
    var front, last := a[..|a| - 1], a[|a| - 1];
    assert KeysOf(front) == KeysOf(a)[..|a| - 1];
    if i < |a| - 1 {
      LineFound(front, i);
      assert KeysOf(a)[i] != KeysOf(a)[|a| - 1];
    }
  }

  lemma LineMapAppend(lines: seq<KvLine>, x: KvLine)
    ensures LineMap(lines + [x]) == LineMap(lines)[x.key := x.content]
    ensures KeysOf(lines + [x]) == KeysOf(lines) + [x.key]
  {
    assert (lines + [x])[..|lines|] == lines;
  }

  lemma SetOfAppend(a: seq<string>, b: seq<string>)
    ensures SetOf(a + b) == SetOf(a) + SetOf(b)
  {
  }

  lemma IndexKeysAdd(sites: set<string>, s: string)
    ensures IndexKeys(sites + {s}) == IndexKeys(sites) + {ReleasesKey(s), RelageKey(s)}
  {
  }

  lemma SitesOfAdd(decode: string -> Option<string>, keys: set<string>, k: string)
    ensures SitesOf(decode, keys + {k}) ==
      SitesOf(decode, keys) + (if SiteOf(decode, k).Some? then {SiteOf(decode, k).value} else {})
  {
  }
}
