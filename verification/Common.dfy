/** Shapes shared by every module: optional values, results, bytes. */
module Common {

  datatype Option<+T> = None | Some(value: T)

  datatype Result<+T, +E> = Ok(value: T) | Err(error: E)

  /** One byte of a wire format. */
  type byte = x: int | 0 <= x < 256

  /** How one write to a store can end: the caller sees success or an error, and an
      error says nothing about whether the write landed. */
  datatype WriteOutcome = Applied | FailedUnwritten | FailedWritten {
    predicate Reported() { Applied? }
    predicate Landed() { !FailedUnwritten? }
  }

  // ---------------------------------------------------------------- sequences and maps

  function SetOf<T>(s: seq<T>): set<T> { set x | x in s }

  ghost predicate NoRepeats<T>(s: seq<T>) {
    forall i, j :: 0 <= i < j < |s| ==> s[i] != s[j]
  }

  lemma Associative<T>(a: seq<T>, b: seq<T>, c: seq<T>)
    ensures (a + b) + c == a + (b + c)
  {
  }

  lemma OneMoreKey<K, V>(m: map<K, V>, k: K, v: V)
    ensures |m[k := v]| == if k in m then |m| else |m| + 1
  {
    assert m[k := v].Keys == m.Keys + {k};
    assert |m| == |m.Keys| && |m[k := v]| == |m[k := v].Keys|;
  }

  // ---------------------------------------------------------------- big-endian numbers

  /** The low `width` bytes of n, most significant first: what encoding/binary writes. */
  function BigEndian(n: nat, width: nat): (s: seq<byte>)
    ensures |s| == width
  {
    if width == 0 then [] else BigEndian(n / 256, width - 1) + [n % 256]
  }

  function FromBigEndian(s: seq<byte>): nat {
    if s == [] then 0 else 256 * FromBigEndian(s[..|s| - 1]) + ByteValue(s[|s| - 1])
  }

  function ByteValue(b: byte): (n: int)
    ensures 0 <= n < 256
  {
    b
  }

  function Pow256(width: nat): (p: nat)
    ensures p > 0
  {
    if width == 0 then 1 else 256 * Pow256(width - 1)
  }

  lemma BigEndianStep(high: nat, low: byte, width: nat)
    ensures BigEndian(256 * high + ByteValue(low), width + 1) == BigEndian(high, width) + [low]
  {
    var n := 256 * high + ByteValue(low);
    assert n / 256 == high && n % 256 == low;
  }

  /** The byte at each place, the most significant first. */
  lemma {:induction false} BigEndianPlaces(n: nat, width: nat, i: nat)
    requires i < width
    ensures BigEndian(n, width)[i] == n / Pow256(width - 1 - i) % 256
  {
    if i < width - 1 {
      BigEndianPlaces(n / 256, width - 1, i);
      DivideTwice(n, Pow256(width - 2 - i));
    }
  }

  lemma DivideTwice(n: nat, p: nat)
    requires p > 0
    ensures n / 256 / p == n / (256 * p)
  {
    var q, r := n / 256 / p, n / 256 % p;
    assert n / 256 == q * p + r && n == 256 * (n / 256) + n % 256;
    assert n == q * (256 * p) + (256 * r + n % 256) && 0 <= 256 * r + n % 256 < 256 * p;
    QuotientIs(n, 256 * p, q, 256 * r + n % 256);
  }

  lemma QuotientIs(n: nat, d: nat, q: nat, r: nat)
    requires d > 0 && n == q * d + r && r < d
    ensures n / d == q
  {
    assert (n / d - q) * d == r - n % d;
    NoMultipleBetween(n / d - q, d);
  }

  lemma NoMultipleBetween(e: int, d: int)
    requires -d < e * d < d
    ensures e == 0
  {
  }

  lemma {:induction false} BigEndianOfFrom(s: seq<byte>)
    ensures BigEndian(FromBigEndian(s), |s|) == s
  {
    if s != [] {
      var front, low := s[..|s| - 1], s[|s| - 1];
      BigEndianStep(FromBigEndian(front), low, |front|);
      BigEndianOfFrom(front);
      assert s == front + [low];
    }
  }

  lemma {:induction false} FromOfBigEndian(n: nat, width: nat)
    requires n < Pow256(width)
    ensures FromBigEndian(BigEndian(n, width)) == n
  {
    if width != 0 {
      var s := BigEndian(n, width);
      assert s[..|s| - 1] == BigEndian(n / 256, width - 1);
      FromOfBigEndian(n / 256, width - 1);
    }
  }
}
