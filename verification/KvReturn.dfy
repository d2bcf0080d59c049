/** One key that returns to an earlier state is enough to defeat two equal reads of the source-map
    namespace and the relist that follows them (internal/backup/kvsrcmap.go:17-30, 171-234). */
module KvReturn {
  import opened Common
  import opened StringOrder
  import opened KvNamespace
  import opened KvCollect
  import opened KvSnapshot

  const ONE := "srcmap::1"
  const TWO := "srcmap::2"
  const THREE := "srcmap::3"

  /** Three blobs, each in one of two states. */
  function Three(one: seq<byte>, two: seq<byte>, three: seq<byte>): Kv {
    Kv(map[ONE := one, TWO := two, THREE := three], map[], map[])
  }

  lemma ThreeKeys(decode: Decoder)
    ensures TypeOf(ONE) == TypeOf(TWO) == TypeOf(THREE) == StringKey
    ensures NS <= ONE && NS <= TWO && NS <= THREE && SitesOf(decode, {ONE, TWO, THREE}) == {}
  {
    hide TypeOf, SiteOf;
    KeyShape(decode, ONE, '1');
    KeyShape(decode, TWO, '2');
    KeyShape(decode, THREE, '3');
  }

  lemma KeyShape(decode: Decoder, key: string, c: char)
    requires key == NS + ":" + [c]
    ensures TypeOf(key) == StringKey && NS <= key && SiteOf(decode, key).None?
  {
    assert key[..7] == NS && key[7..] == ":" + [c];
    assert TrimPrefix(key, NS)[0] == ':';
  }

  /** Keys that differ in their last character only. */
  lemma {:induction false} ShapesAscend(a: string, b: string)
    requires |a| == |b| > 0 && a[..|a| - 1] == b[..|b| - 1] && a[|a| - 1] < b[|b| - 1]
    ensures Less(a, b)
  {
    assert a[|a| - 1] != b[|b| - 1];
    if |a| > 1 {
      assert a[0] == a[..|a| - 1][0] == b[..|b| - 1][0] == b[0];
      assert a[1..][..|a| - 2] == a[..|a| - 1][1..] == b[..|b| - 1][1..] == b[1..][..|b| - 2];
      ShapesAscend(a[1..], b[1..]);
    }
  }

  lemma ThreeState(decode: Decoder, one: seq<byte>, two: seq<byte>, three: seq<byte>)
    ensures var kv := Three(one, two, three);
            && Listed(kv) == {ONE, TWO, THREE} == Visited(decode, {ONE, TWO, THREE})
            && Observe(kv, ONE) == Some(Str(one)) && Observe(kv, TWO) == Some(Str(two))
            && Observe(kv, THREE) == Some(Str(three))
  {
    hide TypeOf, SitesOf;
    ThreeKeys(decode);
    NoSites();
    DifferentKeys();
  }

  lemma NoSites()
    ensures IndexKeys({}) == {}
  {
  }

  lemma DifferentKeys()
    ensures ONE != TWO && ONE != THREE && TWO != THREE
  {
    assert ONE[8] != TWO[8] && ONE[8] != THREE[8] && TWO[8] != THREE[8];
  }

  const A: seq<byte> := [0]
  const B: seq<byte> := [1]

  /** Key TWO goes from A to B and back; the others change once. */
  function Flip(): seq<Kv> { [Three(A, A, A), Three(A, B, A), Three(A, B, B), Three(B, B, B), Three(B, A, B)] }

  /** What both reads return: key ONE before its change, THREE after its own. */
  function Mixed(): map<string, Content> { map[ONE := Str(A), TWO := Str(A), THREE := Str(B)] }

  function FirstRead(): Collect { Collect(0, map[ONE := 0, TWO := 0, THREE := 2]) }

  function SecondRead(): Collect { Collect(2, map[ONE := 2, TWO := 4, THREE := 4]) }

  lemma ReadsAreMixed(decode: Decoder, from: nat, hi: nat, c: Collect)
    requires (from, hi, c) == (0, 2, FirstRead()) || (from, hi, c) == (2, 4, SecondRead())
    ensures Collected(decode, Flip(), from, hi, Mixed(), c)
  {
    hide Observe, Visited, TypeOf;
    DifferentKeys();
    ThreeState(decode, A, A, A);
    ThreeState(decode, A, B, B);
    ThreeState(decode, B, A, B);
  }

  lemma NeverMixed(decode: Decoder, one: seq<byte>, two: seq<byte>, three: seq<byte>)
    requires one != A || two != A || three != B
    ensures Mixed() != Covered(decode, Three(one, two, three))
  {
    ThreeState(decode, one, two, three);
    DifferentKeys();
    var m := Covered(decode, Three(one, two, three));
    assert m[ONE] == Str(one) && m[TWO] == Str(two) && m[THREE] == Str(three);
  }

  /** Each read visits its keys in ascending order. */
  ghost predicate InKeyOrder(c: Collect) {
    forall k, l :: k in c.readAt && l in c.readAt && Less(k, l) ==> c.listAt <= c.readAt[k] <= c.readAt[l]
  }

  /** MAIN RESULT. Three blobs of which only one returns to an earlier state, and two consecutive
      reads in key order with the same content; the closing relist finds the same blob keys. Yet
      the namespace never held what they read. */
  lemma OneReturningKeyIsEnough(decode: Decoder)
      returns (past: seq<Kv>, m: map<string, Content>, c: Collect, d: Collect, key: string)
    ensures Collected(decode, past, 0, 2, m, c) && Collected(decode, past, 2, |past| - 1, m, d)
    ensures InKeyOrder(c) && InKeyOrder(d) && OwnNamesSince(past, 0)
    ensures forall keys :: SetOf(keys) == m.Keys ==> RelistAgrees(past[|past| - 1], keys)
    ensures forall k, i, j, l :: k != key && 0 <= i <= j <= l < |past| ==> Steady(past, k, i, j, l)
    ensures forall i :: 0 <= i < |past| ==> m != Covered(decode, past[i])
  {
    hide Collected, Covered, RelistAgrees, InKeyOrder, OwnNames, Steady, FirstRead, SecondRead, Mixed;
    past, m, c, d, key := Flip(), Mixed(), FirstRead(), SecondRead(), TWO;
    ReadsAreMixed(decode, 0, 2, c);
    ReadsAreMixed(decode, 2, 4, d);
    NeverHeld(decode);
    OthersStay();
    InOrder();
    Relisted(decode);
  }

  lemma NeverHeld(decode: Decoder)
    ensures forall i :: 0 <= i < |Flip()| ==> Mixed() != Covered(decode, Flip()[i])
  {
    hide Covered, Mixed;
    NeverMixed(decode, A, A, A);
    NeverMixed(decode, A, B, A);
    NeverMixed(decode, A, B, B);
    NeverMixed(decode, B, B, B);
    NeverMixed(decode, B, A, B);
  }

  lemma Own(decode: Decoder, one: seq<byte>, two: seq<byte>, three: seq<byte>)
    ensures OwnNames(Three(one, two, three))
  {
    hide TypeOf, Visited, Observe, SitesOf;
    ThreeKeys(decode);
    ThreeState(decode, one, two, three);
  }

  lemma Relisted(decode: Decoder)
    ensures forall i :: 0 <= i < |Flip()| ==> OwnNames(Flip()[i])
    ensures forall keys :: SetOf(keys) == Mixed().Keys ==> RelistAgrees(Flip()[4], keys)
  {
    hide OwnNames, TypeOf, Visited, Observe, Listed;
    Own(decode, A, A, A);
    Own(decode, A, B, A);
    Own(decode, A, B, B);
    Own(decode, B, B, B);
    Own(decode, B, A, B);
    ThreeState(decode, B, A, B);
    assert Mixed().Keys == {ONE, TWO, THREE};
  }

  lemma NotBoth(a: string, b: string)
    requires Less(a, b)
    ensures !Less(b, a)
  {
    hide Le;
    if Less(b, a) { Antisymmetric(a, b); }
  }

  lemma KeysAscend()
    ensures !Less(TWO, ONE) && !Less(THREE, TWO) && !Less(THREE, ONE)
  {
    hide Less;
    ShapesAscend(ONE, TWO);
    ShapesAscend(TWO, THREE);
    ShapesAscend(ONE, THREE);
    NotBoth(ONE, TWO);
    NotBoth(TWO, THREE);
    NotBoth(ONE, THREE);
  }

  lemma InOrder()
    ensures InKeyOrder(FirstRead()) && InKeyOrder(SecondRead())
  {
    hide Less;
    KeysAscend();
    DifferentKeys();
  }

  lemma OthersStay()
    ensures forall k, i, j, l :: k != TWO && 0 <= i <= j <= l < |Flip()| ==> Steady(Flip(), k, i, j, l)
  {
    forall k, i: nat, j: nat, l: nat | k != TWO && i <= j <= l < |Flip()|
      ensures Steady(Flip(), k, i, j, l)
    {
      OneChange(k, i, j, l);
    }
  }

  lemma OneChange(k: string, i: nat, j: nat, l: nat)
    requires k != TWO && i <= j <= l < |Flip()|
    ensures Steady(Flip(), k, i, j, l)
  {
    hide TypeOf;
    DifferentKeys();
  }
}
