/**
 Generic sequence operations the note store is built from: first-occurrence
 search (List.IndexOf), removal of the first occurrence (List.Remove),
 first-seen de-duplication, and the subsequence relation used to state that a
 query keeps the store's order.
 */
module Seqs {

  /** No element occurs twice. */
  predicate Distinct<T(==)>(s: seq<T>) {
    forall i, j :: 0 <= i < j < |s| ==> s[i] != s[j]
  }

  /** Position of the first occurrence of `x` in `s`, or -1 when `x` does not occur. */
  function IndexOf<T(==)>(s: seq<T>, x: T): (i: int)
    ensures -1 <= i < |s|
    ensures i == -1 <==> x !in s
    ensures 0 <= i ==> s[i] == x && forall j :: 0 <= j < i ==> s[j] != x
  {
    if s == [] then -1
    else if s[0] == x then 0
    else
      var j := IndexOf(s[1..], x);
      assert j >= 0 ==> s[..j + 1] == [s[0]] + s[1..][..j];
      if j == -1 then -1 else j + 1
  }

  /** The first occurrence of `x` is where it follows an `x`-free prefix. */
  lemma IndexOfAt<T>(a: seq<T>, x: T, b: seq<T>)
    requires x !in a
    ensures IndexOf(a + [x] + b, x) == |a|
  {
    var s := a + [x] + b;
    var i := IndexOf(s, x);
    assert s[|a|] == x;
  }

  /** Appending an element does not move the first occurrence of anything
      already present, and a new element is found at the old length. */
  lemma IndexOfSnoc<T>(p: seq<T>, x: T)
    ensures forall y :: y in p ==> IndexOf(p + [x], y) == IndexOf(p, y)
    ensures x !in p ==> IndexOf(p + [x], x) == |p|
  {
    forall y | y in p
      ensures IndexOf(p + [x], y) == IndexOf(p, y)
    {
      var s := p + [x];
      assert s[..|p|] == p;
    }
    if x !in p {
      IndexOfAt(p, x, []);
      assert p + [x] + [] == p + [x];
    }
  }

  /** `a` is obtained from `b` by deleting elements: the elements kept stay in
      their original relative order. (Greedy matching decides the relation.) */
  predicate IsSubsequence<T(==)>(a: seq<T>, b: seq<T>)
    decreases |b|
  {
    if a == [] then true
    else if b == [] then false
    else if a[0] == b[0] then IsSubsequence(a[1..], b[1..])
    else IsSubsequence(a, b[1..])
  }

  /** `s` without its first occurrence of `x`; `s` itself when `x` is absent. */
  function RemoveFirst<T(==)>(s: seq<T>, x: T): (r: seq<T>)
    ensures x !in s ==> r == s
    ensures x in s ==> r == s[..IndexOf(s, x)] + s[IndexOf(s, x) + 1..]
  {
    if s == [] then []
    else if s[0] == x then s[1..]
    else
      var rest := RemoveFirst(s[1..], x);
      RemoveFirstStep(s, x, rest);
      [s[0]] + rest
  }

  /** Keeping a head that is not `x` in front of the removal from the tail
      removes the first occurrence from the whole sequence. */
  lemma RemoveFirstStep<T>(s: seq<T>, x: T, rest: seq<T>)
    requires s != [] && s[0] != x
    requires x !in s[1..] ==> rest == s[1..]
    requires x in s[1..] ==> rest == s[1..][..IndexOf(s[1..], x)] + s[1..][IndexOf(s[1..], x) + 1..]
    ensures x !in s ==> [s[0]] + rest == s
    ensures x in s ==> [s[0]] + rest == s[..IndexOf(s, x)] + s[IndexOf(s, x) + 1..]
  {
    assert s == [s[0]] + s[1..];
    if x in s {
      var k := IndexOf(s[1..], x);
      assert IndexOf(s, x) == k + 1;
      assert s[..k + 1] == [s[0]] + s[1..][..k];
      assert s[k + 2..] == s[1..][k + 1..];
    }
  }

  /** Removing a present element takes away exactly one copy of it. */
  lemma {:induction false} RemoveFirstMultiset<T>(s: seq<T>, x: T)
    requires x in s
    ensures multiset(RemoveFirst(s, x)) + multiset{x} == multiset(s)
    ensures |RemoveFirst(s, x)| == |s| - 1
    decreases |s|
  {
    assert s == [s[0]] + s[1..];
    if s[0] != x {
      RemoveFirstMultiset(s[1..], x);
    }
  }

  /** Removing what was just appended (and was not there before) undoes the append. */
  lemma RemoveFirstOfAppended<T>(s: seq<T>, x: T)
    requires x !in s
    ensures RemoveFirst(s + [x], x) == s
  {
    IndexOfAt(s, x, []);
    assert s + [x] + [] == s + [x];
    assert (s + [x])[..|s|] == s;
  }

  /** First-seen de-duplication: scanning `s` from the front, an element is kept
      the first time it is met and skipped afterwards. */
  function FirstSeen<T(==)>(s: seq<T>): (r: seq<T>)
    ensures Distinct(r)
    ensures forall i :: 0 <= i < |r| ==> r[i] in s
    ensures forall i :: 0 <= i < |s| ==> s[i] in r
    ensures forall i, j :: 0 <= i < j < |r| ==> IndexOf(s, r[i]) < IndexOf(s, r[j])
    decreases |s|
  {
    if s == [] then []
    else
      var p, x := s[..|s| - 1], s[|s| - 1];
      assert s == p + [x];
      var d := FirstSeen(p);
      IndexOfSnoc(p, x);
      if x in d then d else d + [x]
  }

  /** `k` lists the elements of `s` once each, ordered by first occurrence in `s`. */
  predicate ListsFirstSeen<T(==)>(s: seq<T>, k: seq<T>) {
    && Distinct(k)
    && (forall i :: 0 <= i < |k| ==> k[i] in s)
    && (forall i :: 0 <= i < |s| ==> s[i] in k)
    && (forall i, j :: 0 <= i < j < |k| ==> IndexOf(s, k[i]) < IndexOf(s, k[j]))
  }

  /** The properties FirstSeen promises determine it: any distinct sequence
      holding exactly the elements of `s`, ordered by first occurrence in `s`,
      is FirstSeen(s). */
  lemma {:induction false} FirstSeenUnique<T>(s: seq<T>, k: seq<T>)
    requires ListsFirstSeen(s, k)
    ensures k == FirstSeen(s)
    decreases |s|
  {
    if s != [] {
      var p, x := s[..|s| - 1], s[|s| - 1];
      assert s == p + [x];
      if x in p {
        ListsOldLast(p, x, k);
        FirstSeenUnique(p, k);
      } else {
        ListsNewLast(p, x, k);
        FirstSeenUnique(p, k[..|k| - 1]);
        assert k == k[..|k| - 1] + [x];
      }
    }
  }

  /** When the last element of `p + [x]` already occurred, the listing of `p + [x]`
      is also a listing of `p`. */
  lemma ListsOldLast<T>(p: seq<T>, x: T, k: seq<T>)
    requires x in p
    requires ListsFirstSeen(p + [x], k)
    ensures ListsFirstSeen(p, k)
  {
    var s := p + [x];
    IndexOfSnoc(p, x);
    assert forall i :: 0 <= i < |p| ==> p[i] == s[i];
    assert forall i :: 0 <= i < |k| ==> k[i] in p by {
      forall i | 0 <= i < |k| ensures k[i] in p {
        assert k[i] in s;
        assert k[i] == x || k[i] in p;
      }
    }
  }

  /** When the last element `x` of `p + [x]` is new, a listing of `p + [x]` ends in
      `x`, and without it lists `p`. */
  lemma ListsNewLast<T>(p: seq<T>, x: T, k: seq<T>)
    requires x !in p
    requires ListsFirstSeen(p + [x], k)
    ensures k != [] && k[|k| - 1] == x
    ensures ListsFirstSeen(p, k[..|k| - 1])
  {
    NewLastIsLast(p, x, k);
    ListsWithoutLast(p, x, k);
  }

  /** An element first met at the very end comes last in the listing. */
  lemma NewLastIsLast<T>(p: seq<T>, x: T, k: seq<T>)
    requires x !in p
    requires ListsFirstSeen(p + [x], k)
    ensures k != [] && k[|k| - 1] == x
  {
    var s := p + [x];
    IndexOfSnoc(p, x);
    assert s[|s| - 1] == x;
    var m :| 0 <= m < |k| && k[m] == x;
    assert IndexOf(s, k[|k| - 1]) <= |p|;
    assert IndexOf(s, k[m]) == |p|;
  }

  /** Dropping the new last element from the listing of `p + [x]` lists `p`. */
  lemma ListsWithoutLast<T>(p: seq<T>, x: T, k: seq<T>)
    requires x !in p
    requires ListsFirstSeen(p + [x], k)
    requires k != [] && k[|k| - 1] == x
    ensures ListsFirstSeen(p, k[..|k| - 1])
  {
    var s := p + [x];
    var k' := k[..|k| - 1];
    assert forall i :: 0 <= i < |k'| ==> k'[i] == k[i] && k[i] != x;
    forall i | 0 <= i < |k'|
      ensures k'[i] in p
    {
      assert k[i] in s;
    }
    forall i | 0 <= i < |p|
      ensures p[i] in k'
    {
      assert p[i] == s[i];
      var a :| 0 <= a < |k| && k[a] == p[i];
      assert k'[a] == p[i];
    }
    IndexOfSnoc(p, x);
  }

  /** Searching `v + t` for an element `v` lacks finds it where `t` has it, shifted by `|v|`. */
  lemma {:induction false} IndexOfAfter<T>(v: seq<T>, t: seq<T>, x: T)
    requires x !in v
    ensures IndexOf(v + t, x) == if x in t then |v| + IndexOf(t, x) else -1
    decreases |v|
  {
    if v == [] {
      assert v + t == t;
    } else {
      assert (v + t)[0] == v[0] && (v + t)[1..] == v[1..] + t;
      IndexOfAfter(v[1..], t, x);
    }
  }
}
