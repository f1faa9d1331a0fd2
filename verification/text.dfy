/**
 The string handling the command layer relies on. .NET's culture-sensitive
 ToUpper/ToLower are modelled as ASCII case mapping; String.Split with
 StringSplitOptions.RemoveEmptyEntries is `Split`; `cmd.Split(' ')[0]`
 (no option, so empty pieces are kept) is `FirstToken`.
 */
module Text {
  import opened Seqs

  predicate IsLowerLetter(c: char) {
    'a' <= c <= 'z'
  }

  predicate IsUpperLetter(c: char) {
    'A' <= c <= 'Z'
  }

  function UpperChar(c: char): char {
    if IsLowerLetter(c) then (c as int - 32) as char else c
  }

  function LowerChar(c: char): char {
    if IsUpperLetter(c) then (c as int + 32) as char else c
  }

  /** No lower-case ASCII letter occurs in `s`. */
  predicate IsUpperCase(s: string) {
    forall i :: 0 <= i < |s| ==> !IsLowerLetter(s[i])
  }

  /** No upper-case ASCII letter occurs in `s`. */
  predicate IsLowerCase(s: string) {
    forall i :: 0 <= i < |s| ==> !IsUpperLetter(s[i])
  }

  /** String.ToUpper: lower-case letters become their upper-case partners,
      every other character is kept in place. */
  function Upper(s: string): (r: string)
    ensures |r| == |s|
    ensures IsUpperCase(r)
    ensures forall i :: 0 <= i < |s| && !IsLowerLetter(s[i]) ==> r[i] == s[i]
    ensures forall i :: 0 <= i < |s| && IsLowerLetter(s[i]) ==> IsUpperLetter(r[i]) && LowerChar(r[i]) == s[i]
  {
    seq(|s|, i requires 0 <= i < |s| => UpperChar(s[i]))
  }

  /** String.ToLower: upper-case letters become their lower-case partners,
      every other character is kept in place. */
  function Lower(s: string): (r: string)
    ensures |r| == |s|
    ensures IsLowerCase(r)
    ensures forall i :: 0 <= i < |s| && !IsUpperLetter(s[i]) ==> r[i] == s[i]
    ensures forall i :: 0 <= i < |s| && IsUpperLetter(s[i]) ==> IsLowerLetter(r[i]) && UpperChar(r[i]) == s[i]
  {
    seq(|s|, i requires 0 <= i < |s| => LowerChar(s[i]))
  }

  /** Upper-casing twice is upper-casing once. */
  lemma UpperIdempotent(s: string)
    ensures Upper(Upper(s)) == Upper(s)
  {
  }

  /** Lower-casing leaves a string without upper-case letters unchanged. */
  lemma LowerOfLowerCase(s: string)
    requires IsLowerCase(s)
    ensures Lower(s) == s
  {
  }

  /** String.Split(sep, RemoveEmptyEntries): the maximal runs of `s` free of
      `sep`, left to right, with the empty runs dropped. */
  function Split(s: string, sep: char): (pieces: seq<string>)
    ensures forall k :: 0 <= k < |pieces| ==> pieces[k] != [] && sep !in pieces[k]
    decreases |s|
  {
    var i := IndexOf(s, sep);
    if i == -1 then (if s == [] then [] else [s])
    else (if i == 0 then [] else [s[..i]]) + Split(s[i + 1..], sep)
  }

  /** The pieces of an upper-case string are upper-case. */
  lemma {:induction false} SplitUpperCase(s: string, sep: char)
    requires IsUpperCase(s)
    ensures forall k :: 0 <= k < |Split(s, sep)| ==> IsUpperCase(Split(s, sep)[k])
    decreases |s|
  {
    var i := IndexOf(s, sep);
    if i != -1 {
      var b := s[i + 1..];
      assert IsUpperCase(b) by {
        assert forall m :: 0 <= m < |b| ==> b[m] == s[i + 1 + m];
      }
      SplitUpperCase(b, sep);
    }
  }

  /** The pieces laid end to end. */
  function Concat(pieces: seq<string>): string {
    if pieces == [] then [] else pieces[0] + Concat(pieces[1..])
  }

  /** `s` with every occurrence of `sep` deleted. */
  function Erase(s: string, sep: char): string {
    if s == [] then []
    else (if s[0] == sep then [] else [s[0]]) + Erase(s[1..], sep)
  }

  /** The pieces joined back together with `sep` between neighbours. */
  function Join(pieces: seq<string>, sep: char): string {
    if |pieces| == 0 then []
    else if |pieces| == 1 then pieces[0]
    else pieces[0] + [sep] + Join(pieces[1..], sep)
  }

  lemma {:induction false} EraseAppend(a: string, b: string, sep: char)
    ensures Erase(a + b, sep) == Erase(a, sep) + Erase(b, sep)
    decreases |a|
  {
    if a != [] {
      assert (a + b)[0] == a[0] && (a + b)[1..] == a[1..] + b;
      EraseAppend(a[1..], b, sep);
    } else {
      assert a + b == b;
    }
  }

  lemma {:induction false} EraseAbsent(s: string, sep: char)
    requires sep !in s
    ensures Erase(s, sep) == s
    decreases |s|
  {
    if s != [] {
      assert s == [s[0]] + s[1..];
      EraseAbsent(s[1..], sep);
    }
  }

  /** Splitting at the first separator: the run before it (when non-empty)
      is the first piece, and the rest is split the same way. */
  lemma SplitAt(a: string, sep: char, b: string)
    requires sep !in a
    ensures Split(a + [sep] + b, sep) == (if a == [] then [] else [a]) + Split(b, sep)
  {
    var s := a + [sep] + b;
    IndexOfAt(a, sep, b);
    assert s[..|a|] == a && s[|a| + 1..] == b;
  }

  /** A string without the separator is a single piece, or none when empty. */
  lemma SplitWhole(s: string, sep: char)
    requires sep !in s
    ensures Split(s, sep) == (if s == [] then [] else [s])
  {
  }

  /** Splitting loses nothing but the separators: the pieces laid end to end
      are `s` with every separator deleted. */
  lemma {:induction false} SplitKeepsText(s: string, sep: char)
    ensures Concat(Split(s, sep)) == Erase(s, sep)
    decreases |s|
  {
    var i := IndexOf(s, sep);
    if i == -1 {
      EraseAbsent(s, sep);
      SplitWhole(s, sep);
      ConcatFront(s, []);
    } else {
      var a, b := s[..i], s[i + 1..];
      assert s == a + [sep] + b;
      SplitKeepsText(b, sep);
      SplitAt(a, sep, b);
      ConcatFront(a, Split(b, sep));
      EraseSeparated(a, sep, b);
    }
  }

  /** Erasing the separators of `a + [sep] + b` when `a` holds none. */
  lemma EraseSeparated(a: string, sep: char, b: string)
    requires sep !in a
    ensures Erase(a + [sep] + b, sep) == a + Erase(b, sep)
  {
    var t := [sep] + b;
    assert Erase(t, sep) == Erase(b, sep) by {
      assert t != [] && t[0] == sep && t[1..] == b;
    }
    assert a + [sep] + b == a + t;
    EraseAppend(a, t, sep);
    EraseAbsent(a, sep);
  }

  /** A non-empty leading piece contributes its text in front of the rest. */
  lemma ConcatFront(a: string, rest: seq<string>)
    ensures Concat((if a == [] then [] else [a]) + rest) == a + Concat(rest)
  {
    if a != [] {
      assert ([a] + rest)[0] == a && ([a] + rest)[1..] == rest;
    } else {
      assert [] + rest == rest;
    }
  }

  /** Split undoes Join for pieces that are non-empty and separator-free. */
  lemma {:induction false} SplitJoin(pieces: seq<string>, sep: char)
    requires forall k :: 0 <= k < |pieces| ==> pieces[k] != [] && sep !in pieces[k]
    ensures Split(Join(pieces, sep), sep) == pieces
    decreases |pieces|
  {
    if |pieces| == 1 {
      SplitWhole(pieces[0], sep);
    } else if |pieces| > 1 {
      SplitAt(pieces[0], sep, Join(pieces[1..], sep));
      SplitJoin(pieces[1..], sep);
      assert pieces == [pieces[0]] + pieces[1..];
    }
  }

  /** `s.Substring(off)` where an out-of-range offset, which makes Substring
      throw, is answered with the empty string. */
  function TailFrom(s: string, off: int): (r: string)
    ensures 0 <= off <= |s| ==> s[..off] + r == s
    ensures !(0 <= off <= |s|) ==> r == []
  {
    if 0 <= off <= |s| then s[off..] else []
  }

  /** Behind a prefix `v`, an offset `|v| + rel` into `v + t` reads the tail of `t` from `rel`. */
  lemma TailFromAfter(v: string, t: string, off: int, rel: int)
    requires 0 <= rel && off == |v| + rel
    ensures TailFrom(v + t, off) == TailFrom(t, rel)
  {
    if rel <= |t| {
      assert (v + t)[off..] == t[rel..];
    }
  }

  /** `s.Split(' ')[0]`: the longest space-free prefix of `s`. */
  function FirstToken(s: string): (t: string)
    ensures t <= s
    ensures ' ' !in t
    ensures |t| < |s| ==> s[|t|] == ' '
  {
    var i := IndexOf(s, ' ');
    if i == -1 then s else s[..i]
  }

  /** A space-free word followed by nothing or by a space is the first token. */
  lemma FirstTokenOf(v: string, t: string)
    requires ' ' !in v
    requires t == [] || t[0] == ' '
    ensures FirstToken(v + t) == v
  {
    var s := v + t;
    var f := FirstToken(s);
    assert s[..|v|] == v;
  }

  /** Splitting `v + t`, where `v` is a non-empty separator-free word and `t`
      does not start with the separator: the pieces after the first depend on
      `t` alone. */
  lemma SplitAfterWord(v: string, t: string, sep: char)
    requires v != [] && sep !in v
    requires t == [] || t[0] != sep
    ensures |Split(v + t, sep)| >= 1
    ensures Split(v + t, sep)[1..] ==
      if sep in t then Split(t[IndexOf(t, sep) + 1..], sep) else []
  {
    if sep in t {
      var i := IndexOf(t, sep);
      var a, b := v + t[..i], t[i + 1..];
      assert sep !in a;
      assert t == t[..i] + [sep] + b;
      assert v + t == a + [sep] + b;
      SplitAt(a, sep, b);
    } else {
      assert sep !in v + t;
      SplitWhole(v + t, sep);
    }
  }

  /** After a separator-free word, the pieces past the first depend
      only on the text that follows the word. */
  lemma SplitIgnoresWord(v: string, w: string, t: string, sep: char)
    requires v != [] && sep !in v
    requires w != [] && sep !in w
    requires t == [] || t[0] != sep
    ensures |Split(v + t, sep)| == |Split(w + t, sep)|
    ensures forall k :: 1 <= k < |Split(v + t, sep)| ==> Split(v + t, sep)[k] == Split(w + t, sep)[k]
  {
    SplitAfterWord(v, t, sep);
    SplitAfterWord(w, t, sep);
    var pv, pw := Split(v + t, sep), Split(w + t, sep);
    assert forall k :: 1 <= k < |pv| ==> pv[k] == pv[1..][k - 1];
    assert forall k :: 1 <= k < |pw| ==> pw[k] == pw[1..][k - 1];
  }

  /** A trailing separator adds no piece. */
  lemma {:induction false} SplitTrailing(s: string, sep: char)
    ensures Split(s + [sep], sep) == Split(s, sep)
    decreases |s|
  {
    if sep in s {
      var i := IndexOf(s, sep);
      var a, b := s[..i], s[i + 1..];
      assert s == a + [sep] + b;
      assert s + [sep] == a + [sep] + (b + [sep]);
      SplitAt(a, sep, b);
      SplitAt(a, sep, b + [sep]);
      SplitTrailing(b, sep);
    } else {
      assert s + [sep] == s + [sep] + [];
      SplitAt(s, sep, []);
      SplitWhole(s, sep);
    }
  }
}
