/** Byte order on strings and sorting by it, as Go's sort.Strings orders. */
module StringOrder {

  predicate Le(a: string, b: string) {
    if a == [] then true
    else if b == [] then false
    else if a[0] != b[0] then a[0] < b[0]
    else Le(a[1..], b[1..])
  }

  predicate Less(a: string, b: string) { a != b && Le(a, b) }

  lemma {:induction false} Total(a: string, b: string)
    ensures Le(a, b) || Le(b, a)
  {
    if a != [] && b != [] && a[0] == b[0] { Total(a[1..], b[1..]); }
  }

  lemma {:induction false} Antisymmetric(a: string, b: string)
    requires Le(a, b) && Le(b, a)
    ensures a == b
  {
    if a != [] && b != [] {
      Antisymmetric(a[1..], b[1..]);
      assert a == [a[0]] + a[1..] && b == [b[0]] + b[1..];
    }
  }

  lemma {:induction false} Transitive(a: string, b: string, c: string)
    requires Le(a, b) && Le(b, c)
    ensures Le(a, c)
  {
    if a != [] && b[0] == a[0] && c[0] == b[0] { Transitive(a[1..], b[1..], c[1..]); }
  }

  ghost predicate Ascending(s: seq<string>) {
    forall i, j :: 0 <= i < j < |s| ==> Le(s[i], s[j])
  }

  ghost predicate StrictlyAscending(s: seq<string>) {
    forall i, j {:trigger Less(s[i], s[j])} :: 0 <= i < j < |s| ==> Less(s[i], s[j])
  }

  function Insert(x: string, s: seq<string>): seq<string> {
    if s == [] then [x]
    else if Le(s[|s| - 1], x) then s + [x]
    else Insert(x, s[..|s| - 1]) + [s[|s| - 1]]
  }

  function Sort(s: seq<string>): seq<string> {
    if s == [] then [] else Insert(s[|s| - 1], Sort(s[..|s| - 1]))
  }

  lemma EndOf(s: seq<string>)
    requires s != []
    ensures s == s[..|s| - 1] + [s[|s| - 1]]
    ensures multiset(s) == multiset(s[..|s| - 1]) + multiset{s[|s| - 1]}
  {
    assert s == s[..|s| - 1] + [s[|s| - 1]];
  }

  lemma {:induction false} InsertHolds(x: string, s: seq<string>)
    ensures multiset(Insert(x, s)) == multiset(s) + multiset{x}
  {
    if s != [] && !Le(s[|s| - 1], x) {
      InsertHolds(x, s[..|s| - 1]);
      EndOf(s);
    }
  }

  lemma AppendAscends(s: seq<string>, x: string)
    requires Ascending(s) && forall i :: 0 <= i < |s| ==> Le(s[i], x)
    ensures Ascending(s + [x])
  {
  }

  lemma {:induction false} InsertKeeps(x: string, s: seq<string>)
    requires Ascending(s)
    ensures Ascending(Insert(x, s)) && multiset(Insert(x, s)) == multiset(s) + multiset{x}
  {
    InsertHolds(x, s);
    if s != [] {
      var front, top := s[..|s| - 1], s[|s| - 1];
      if Le(top, x) {
        forall i | 0 <= i < |s|
          ensures Le(s[i], x)
        {
          if i < |s| - 1 { Transitive(s[i], top, x); }
        }
        AppendAscends(s, x);
      } else {
        Total(top, x);
        InsertKeeps(x, front);
        var r := Insert(x, front);
        forall i | 0 <= i < |r|
          ensures Le(r[i], top)
        {
          assert r[i] in multiset(r);
          assert r[i] == x || r[i] in front;
        }
        AppendAscends(r, top);
      }
    }
  }

  lemma {:induction false} SortKeeps(s: seq<string>)
    ensures Ascending(Sort(s)) && multiset(Sort(s)) == multiset(s)
  {
    if s != [] {
      SortKeeps(s[..|s| - 1]);
      InsertKeeps(s[|s| - 1], Sort(s[..|s| - 1]));
      EndOf(s);
    }
  }

  lemma SameEnd(s: seq<string>, t: seq<string>)
    requires Ascending(s) && Ascending(t) && multiset(s) == multiset(t) && s != [] && t != []
    ensures s[|s| - 1] == t[|t| - 1]
  {
    var a, b := s[|s| - 1], t[|t| - 1];
    assert a in multiset(t) && b in multiset(s);
    if a != b {
      assert Le(a, b) && Le(b, a);
      Antisymmetric(a, b);
    }
  }

  /** Two ascending arrangements of the same strings are one. */
  lemma {:induction false} AscendingIsUnique(s: seq<string>, t: seq<string>)
    requires Ascending(s) && Ascending(t) && multiset(s) == multiset(t)
    ensures s == t
  {
    SameLength(s, t);
    if s != [] {
      SameEnd(s, t);
      SameFront(s, t);
      AscendingIsUnique(s[..|s| - 1], t[..|t| - 1]);
      EndOf(s);
      EndOf(t);
    }
  }

  lemma SameLength(s: seq<string>, t: seq<string>)
    requires multiset(s) == multiset(t)
    ensures |s| == |t|
  {
    assert |s| == |multiset(s)| && |t| == |multiset(t)|;
  }

  lemma SameFront(s: seq<string>, t: seq<string>)
    requires multiset(s) == multiset(t) && s != [] && t != [] && s[|s| - 1] == t[|t| - 1]
    ensures multiset(s[..|s| - 1]) == multiset(t[..|t| - 1])
  {
    EndOf(s);
    EndOf(t);
    assert multiset(s[..|s| - 1]) == multiset(s) - multiset{s[|s| - 1]};
    assert multiset(t[..|t| - 1]) == multiset(t) - multiset{s[|s| - 1]};
  }

  lemma SortMembers(s: seq<string>)
    ensures forall x :: x in Sort(s) <==> x in s
  {
    SortKeeps(s);
    forall x
      ensures x in Sort(s) <==> x in s
    {
      assert x in multiset(Sort(s)) <==> x in multiset(s);
    }
  }

  // ---------------------------------------------------------------- sorting in place

  lemma {:induction false} InsertSplit(x: string, s: seq<string>, j: nat)
    requires j <= |s| && forall k :: j <= k < |s| ==> !Le(s[k], x)
    ensures Insert(x, s) == Insert(x, s[..j]) + s[j..]
    decreases |s|
  {
    if j == |s| {
      assert s[..j] == s;
    } else {
      var front := s[..|s| - 1];
      InsertSplit(x, front, j);
      assert front[..j] == s[..j] && front[j..] + [s[|s| - 1]] == s[j..];
    }
  }

  /** sortStrings of internal/backup/restore.go: insertion sort by neighbouring swaps. */
  method SortStrings(a: array<string>)
    modifies a
    ensures a[..] == Sort(old(a[..]))
  {
    ghost var was := a[..];
    var i := 0;
    while i < a.Length
      invariant 0 <= i <= a.Length && a[..i] == Sort(was[..i]) && a[i..] == was[i..]
    {
      assert was[..i + 1][..i] == was[..i] && a[i] == was[i];
      Sink(a, i);
      assert a[i + 1..] == was[i + 1..];
      i := i + 1;
    }
    assert a[..] == a[..a.Length] && was[..a.Length] == was;
  }

  lemma InsertHere(x: string, s: seq<string>)
    requires s == [] || Le(s[|s| - 1], x)
    ensures Insert(x, s) == s + [x]
  {
  }

  /** Move a[i] down to its place among the sorted elements before it. */
  method Sink(a: array<string>, i: nat)
    requires i < a.Length
    modifies a
    ensures a[..i + 1] == Insert(old(a[i]), old(a[..i])) && a[i + 1..] == old(a[i + 1..])
  {
    hide Insert, Le;
    ghost var x, before := a[i], a[..i];
    var j := i;
    while j > 0 && !Le(a[j - 1], a[j])
      invariant 0 <= j <= i && a[j] == x && a[..j] == before[..j] && a[j + 1..i + 1] == before[j..]
      invariant a[i + 1..] == old(a[i + 1..]) && forall k :: j <= k < i ==> !Le(before[k], x)
    {
      assert a[j - 1] == before[j - 1];
      a[j - 1], a[j] := a[j], a[j - 1];
      assert a[j..i + 1] == [before[j - 1]] + before[j..] == before[j - 1..];
      j := j - 1;
    }
    InsertSplit(x, before, j);
    assert j > 0 ==> before[..j][j - 1] == a[j - 1];
    InsertHere(x, before[..j]);
    assert a[..i + 1] == a[..j] + [x] + a[j + 1..i + 1];
  }
}
