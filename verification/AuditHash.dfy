/** Row hashing of the audit chain (internal/audit/audit.go, keys.go): the length-prefixed
    field encoding under the MAC, and the ways one row can verify. */
module AuditHash {
  import opened Common

  /** A Go string: its length fits the 8-byte prefix the encoding writes. */
  type Text = s: seq<byte> | |s| < 0x8000_0000_0000_0000

  type int64 = x: int | -0x8000_0000_0000_0000 <= x < 0x8000_0000_0000_0000

  const MAX_INT64 := 0x7FFF_FFFF_FFFF_FFFF

  /** HMAC-SHA256 as a function of key and message. Nothing is assumed about it: the
      theorems name an explicit collision where one would be needed to break them. */
  type Mac = (seq<byte>, seq<byte>) -> Text

  datatype Event = Event(
    auditId: Text, tenantId: Text, siteId: Text, timestamp: int64,
    actor: Text, actorType: Text, action: Text, target: Text, result: Text,
    sourceIp: Text, userAgent: Text, metadata: Text,
    seqNo: int64, prevHash: Text, hash: Text, keyId: Text)

  // ---------------------------------------------------------------- encoding

  /** Decimal digits of a non-negative number. */
  function Digits(n: nat): (s: seq<byte>)
    ensures 0 < |s| <= 1 + n / 10
    ensures forall i :: 0 <= i < |s| ==> 48 <= s[i] <= 57
  {
    if n < 10 then [48 + n] else Digits(n / 10) + [48 + n % 10]
  }

  /** strconv.FormatInt(x, 10). */
  function FormatInt(x: int64): Text {
    var y: int := x;
    if y < 0 then [45] + Digits(-y) else Digits(y)
  }

  /** What decimal digits stand for. */
  ghost function NumberOf(digits: seq<byte>): int {
    if digits == [] then 0 else 10 * NumberOf(digits[..|digits| - 1]) + ByteValue(digits[|digits| - 1]) - 48
  }

  /** The digits stand for the number, and begin with a zero for nought only. */
  lemma {:induction false} DigitsDenote(n: nat)
    ensures NumberOf(Digits(n)) == n && (Digits(n)[0] == 48 <==> n == 0)
  {
    var s := Digits(n);
    if n < 10 {
      assert NumberOf(s[..0]) == 0;
    } else {
      assert s[..|s| - 1] == Digits(n / 10) && s[0] == Digits(n / 10)[0];
      DigitsDenote(n / 10);
    }
  }

  /** The text of a number: its digits, after a minus sign if it is negative. */
  lemma FormatIntDenotes(x: int64)
    ensures x as int >= 0 ==> NumberOf(FormatInt(x)) == x as int
    ensures (x as int) < 0 ==> FormatInt(x) == [45] + FormatInt(x)[1..] && NumberOf(FormatInt(x)[1..]) == -(x as int)
  {
    hide Digits, NumberOf;
    var y: int := x;
    if y < 0 {
      DigitsDenote(-y);
      assert FormatInt(x) == [45] + Digits(-y);
    } else {
      DigitsDenote(y);
    }
  }

  lemma {:induction false} DigitsInjective(m: nat, n: nat)
    requires Digits(m) == Digits(n)
    ensures m == n
  {
    var s, t := Digits(m), Digits(n);
    assert s[|s| - 1] == t[|t| - 1];
    if m >= 10 && n >= 10 {
      assert s[..|s| - 1] == Digits(m / 10) && t[..|t| - 1] == Digits(n / 10);
      DigitsInjective(m / 10, n / 10);
    }
  }

  lemma FormatIntInjective(x: int64, y: int64)
    requires FormatInt(x) == FormatInt(y)
    ensures x == y
  {
    var a: int, b: int := x, y;
    assert FormatInt(x)[0] == FormatInt(y)[0];
    if a < 0 {
      assert Digits(-a) == FormatInt(x)[1..] && Digits(-b) == FormatInt(y)[1..];
      DigitsInjective(-a, -b);
    } else {
      DigitsInjective(a, b);
    }
  }

  /** One field: 8-byte big-endian length, then its bytes. */
  function Field(v: Text): seq<byte> { BigEndian(|v|, 8) + v }

  function EncodeFields(fields: seq<Text>): seq<byte> {
    if fields == [] then [] else Field(fields[0]) + EncodeFields(fields[1..])
  }

  /** What the MAC covers, in the order it is written. */
  function Fields(ev: Event): seq<Text> {
    [ev.prevHash, FormatInt(ev.seqNo), FormatInt(ev.timestamp), ev.auditId, ev.tenantId, ev.siteId,
     ev.actor, ev.actorType, ev.action, ev.target, ev.result, ev.sourceIp, ev.userAgent, ev.metadata]
  }

  function Message(ev: Event): seq<byte> { EncodeFields(Fields(ev)) }

  /** The bytes under the MAC: every field after its length, in this order. */
  lemma MessageLayout(ev: Event)
    ensures Message(ev) ==
            (Field(ev.prevHash) + Field(FormatInt(ev.seqNo)) + Field(FormatInt(ev.timestamp)) + Field(ev.auditId))
            + (Field(ev.tenantId) + Field(ev.siteId) + Field(ev.actor) + Field(ev.actorType) + Field(ev.action))
            + (Field(ev.target) + Field(ev.result) + Field(ev.sourceIp) + Field(ev.userAgent) + Field(ev.metadata))
  {
    var first := [ev.prevHash, FormatInt(ev.seqNo), FormatInt(ev.timestamp), ev.auditId];
    var middle := [ev.tenantId, ev.siteId, ev.actor, ev.actorType, ev.action];
    var last := [ev.target, ev.result, ev.sourceIp, ev.userAgent, ev.metadata];
    assert Fields(ev) == first + middle + last;
    EncodeSplit(first + middle, last);
    EncodeSplit(first, middle);
    FourFields(first[0], first[1], first[2], first[3]);
    FiveFields(middle[0], middle[1], middle[2], middle[3], middle[4]);
    FiveFields(last[0], last[1], last[2], last[3], last[4]);
  }

  lemma {:induction false} EncodeSplit(a: seq<Text>, b: seq<Text>)
    ensures EncodeFields(a + b) == EncodeFields(a) + EncodeFields(b)
  {
    if a == [] {
      assert a + b == b;
    } else {
      assert (a + b)[0] == a[0] && (a + b)[1..] == a[1..] + b;
      EncodeSplit(a[1..], b);
    }
  }

  lemma OneField(f: Text)
    ensures EncodeFields([f]) == Field(f)
  {
    assert [f][1..] == [];
  }

  lemma FourFields(a: Text, b: Text, c: Text, d: Text)
    ensures EncodeFields([a, b, c, d]) == Field(a) + Field(b) + Field(c) + Field(d)
  {
    assert [a, b, c, d] == [a] + [b] + [c] + [d];
    EncodeSplit([a] + [b] + [c], [d]);
    EncodeSplit([a] + [b], [c]);
    EncodeSplit([a], [b]);
    OneField(a);
    OneField(b);
    OneField(c);
    OneField(d);
  }

  lemma FiveFields(a: Text, b: Text, c: Text, d: Text, e: Text)
    ensures EncodeFields([a, b, c, d, e]) == Field(a) + Field(b) + Field(c) + Field(d) + Field(e)
  {
    assert [a, b, c, d, e] == [a, b, c, d] + [e];
    EncodeSplit([a, b, c, d], [e]);
    FourFields(a, b, c, d);
    OneField(e);
  }

  function HashWith(mac: Mac, key: seq<byte>, ev: Event): Text { mac(key, Message(ev)) }

  /** The row without what the MAC does not cover: its hash and its key id. */
  function HashedPart(ev: Event): Event { ev.(hash := [], keyId := []) }

  lemma FieldInjective(v: Text, w: Text, rest: seq<byte>, rest': seq<byte>)
    requires Field(v) + rest == Field(w) + rest'
    ensures v == w && rest == rest'
  {
    var x, y := Field(v) + rest, Field(w) + rest';
    assert x[..8] == BigEndian(|v|, 8) && y[..8] == BigEndian(|w|, 8);
    assert Pow256(8) == 256 * 256 * 256 * 256 * Pow256(4) && Pow256(4) == 256 * 256 * 256 * 256;
    FromOfBigEndian(|v|, 8);
    FromOfBigEndian(|w|, 8);
    assert x[8..8 + |v|] == v && y[8..8 + |w|] == w;
    assert x[8 + |v|..] == rest && y[8 + |w|..] == rest';
  }

  /** No field value can be smuggled across a boundary: the encoding determines the fields. */
  lemma {:induction false} EncodeFieldsInjective(f: seq<Text>, g: seq<Text>)
    requires EncodeFields(f) == EncodeFields(g)
    ensures f == g
  {
    if f == [] || g == [] {
      assert f == [] <==> g == [];
    } else {
      FieldInjective(f[0], g[0], EncodeFields(f[1..]), EncodeFields(g[1..]));
      EncodeFieldsInjective(f[1..], g[1..]);
      assert f == [f[0]] + f[1..] && g == [g[0]] + g[1..];
    }
  }

  lemma MessageInjective(a: Event, b: Event)
    requires Message(a) == Message(b)
    ensures HashedPart(a) == HashedPart(b)
  {
    var f, g := Fields(a), Fields(b);
    EncodeFieldsInjective(f, g);
    assert f[0] == g[0] && f[1] == g[1] && f[2] == g[2] && f[3] == g[3] && f[4] == g[4] && f[5] == g[5] && f[6] == g[6];
    assert f[7] == g[7] && f[8] == g[8] && f[9] == g[9] && f[10] == g[10]
           && f[11] == g[11] && f[12] == g[12] && f[13] == g[13];
    FormatIntInjective(a.seqNo, b.seqNo);
    FormatIntInjective(a.timestamp, b.timestamp);
  }

  // ---------------------------------------------------------------- keys

  /** The resolved keyring: the signer, the verification keys by id, and the secrets a row
      without a key id may have been signed with. */
  datatype Keyring = Keyring(verify: map<Text, seq<byte>>, legacy: seq<seq<byte>>,
                             keyed: bool, signerId: Text, signerKey: seq<byte>)

  function KeyFor(kr: Keyring, id: Text): Option<seq<byte>> {
    if id == [] then None
    else if id in kr.verify then Some(kr.verify[id]) else None
  }

  datatype RowMatch = NoMatch | MatchKeyed | MatchLegacy | MatchUnkeyed

  /** How, if at all, one row's hash verifies. */
  function RowMatchKind(mac: Mac, keys: Option<Keyring>, ev: Event): RowMatch {
    match keys
    case None => if HashWith(mac, [], ev) == ev.hash then MatchUnkeyed else NoMatch
    case Some(kr) =>
      if ev.keyId == [] then
        if exists k :: k in kr.legacy && |k| > 0 && HashWith(mac, k, ev) == ev.hash then MatchLegacy
        else if HashWith(mac, [], ev) == ev.hash then MatchUnkeyed
        else NoMatch
      else
        match KeyFor(kr, ev.keyId)
        case None => NoMatch
        case Some(k) => if HashWith(mac, k, ev) == ev.hash then MatchKeyed else NoMatch
  }

  predicate KeyKnown(keys: Option<Keyring>, keyId: Text) {
    keys.None? || keyId == [] || KeyFor(keys.value, keyId).Some?
  }

  /** A key the verifier tries: one of the keyring, or none at all. */
  predicate Given(keys: Option<Keyring>, k: seq<byte>) {
    k == [] || (keys.Some? && (k in keys.value.verify.Values || k in keys.value.legacy))
  }

  /** Two different messages with one MAC. Different keys for one message are no collision. */
  predicate Collision(mac: Mac, k: seq<byte>, m: seq<byte>, k': seq<byte>, m': seq<byte>) {
    m != m' && mac(k, m) == mac(k', m')
  }

  /** A row that verifies was hashed under some key the verifier was given. */
  lemma VerifiedRowHasKey(mac: Mac, keys: Option<Keyring>, ev: Event) returns (k: seq<byte>)
    requires !RowMatchKind(mac, keys, ev).NoMatch?
    ensures HashWith(mac, k, ev) == ev.hash && Given(keys, k)
    ensures RowMatchKind(mac, keys, ev).MatchUnkeyed? ==> k == []
    ensures RowMatchKind(mac, keys, ev).MatchKeyed? ==> keys.Some? && KeyFor(keys.value, ev.keyId) == Some(k)
    ensures RowMatchKind(mac, keys, ev).MatchLegacy? ==> keys.Some? && k in keys.value.legacy && |k| > 0
  {
    match RowMatchKind(mac, keys, ev)
    case MatchUnkeyed => k := [];
    case MatchKeyed => k := KeyFor(keys.value, ev.keyId).value;
    case MatchLegacy => k :| k in keys.value.legacy && |k| > 0 && HashWith(mac, k, ev) == ev.hash;
  }
}
