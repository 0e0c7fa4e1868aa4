/** Splitting, joining and searching sequences of characters, of any character type. */
module Strings {

  /** String.split on one character: always at least one part. */
  function Split<T(==)>(s: seq<T>, c: T): (parts: seq<seq<T>>)
    ensures |parts| > 0
    ensures forall p <- parts :: c !in p
  {
    if s == [] then [[]]
    else
      var rest := Split(s[1..], c);
      if s[0] == c then [[]] + rest
      else
        assert rest[0] in rest;
        [[s[0]] + rest[0]] + rest[1..]
  }

  function Join<T>(parts: seq<seq<T>>, c: T): seq<T>
    requires |parts| > 0
  {
    if |parts| == 1 then parts[0] else parts[0] + [c] + Join(parts[1..], c)
  }

  function LastIndexOf<T(==)>(s: seq<T>, c: T): (k: int)
    ensures -1 <= k < |s|
    ensures k >= 0 ==> s[k] == c
    ensures forall j :: k < j < |s| ==> s[j] != c
  {
    if |s| == 0 then -1
    else if s[|s| - 1] == c then |s| - 1
    else LastIndexOf(s[..|s| - 1], c)
  }

  function TrimPrefix<T(==)>(s: seq<T>, prefix: seq<T>): seq<T> {
    if prefix <= s then s[|prefix|..] else s
  }

  lemma {:induction false} JoinSplit<T>(s: seq<T>, c: T)
    ensures Join(Split(s, c), c) == s
  {
    if s != [] {
      JoinSplit(s[1..], c);
      var rest := Split(s[1..], c);
      var parts := Split(s, c);
      if s[0] == c {
        assert parts[1..] == rest;
      } else if |rest| > 1 {
        assert parts[1..] == rest[1..];
      }
    }
  }

  lemma {:induction false} SplitPart<T>(p: seq<T>, s: seq<T>, c: T)
    requires c !in p
    ensures Split(p, c) == [p]
    ensures Split(p + [c] + s, c) == [p] + Split(s, c)
  {
    var t := p + [c] + s;
    if p == [] {
      assert t[1..] == s;
    } else {
      assert t[1..] == p[1..] + [c] + s;
      assert p == [p[0]] + p[1..];
      SplitPart(p[1..], s, c);
    }
  }

  /** Splitting at one occurrence of the separator splits the two sides on their own. */
  lemma {:induction false} SplitApart<T>(p: seq<T>, s: seq<T>, c: T)
    ensures Split(p + [c] + s, c) == Split(p, c) + Split(s, c)
  {
    var t := p + [c] + s;
    if p == [] {
      assert t[1..] == s;
    } else {
      assert t[1..] == p[1..] + [c] + s;
      SplitApart(p[1..], s, c);
    }
  }

  lemma {:induction false} SplitJoin<T>(parts: seq<seq<T>>, c: T)
    requires |parts| > 0 && forall k :: 0 <= k < |parts| ==> c !in parts[k]
    ensures Split(Join(parts, c), c) == parts
  {
    if |parts| == 1 {
      SplitPart(parts[0], [], c);
    } else {
      SplitJoin(parts[1..], c);
      SplitPart(parts[0], Join(parts[1..], c), c);
      assert parts == [parts[0]] + parts[1..];
    }
  }

  lemma {:induction false} PartsFrom<T>(s: seq<T>, c: T, x: T)
    requires x !in s
    ensures forall p <- Split(s, c) :: x !in p
  {
    if s != [] {
      assert s == [s[0]] + s[1..];
      PartsFrom(s[1..], c, x);
      assert Split(s[1..], c)[0] in Split(s[1..], c);
    }
  }

  lemma {:induction false} JoinFrom<T>(parts: seq<seq<T>>, c: T, x: T)
    requires |parts| > 0 && x != c && forall k :: 0 <= k < |parts| ==> x !in parts[k]
    ensures x !in Join(parts, c)
  {
    if |parts| > 1 {
      JoinFrom(parts[1..], c, x);
    }
  }

  lemma {:induction false} LastIndexAt<T>(s: seq<T>, k: int, c: T)
    requires -1 <= k < |s| && (k >= 0 ==> s[k] == c) && forall j :: k < j < |s| ==> s[j] != c
    ensures LastIndexOf(s, c) == k
  {
    if |s| > 0 && s[|s| - 1] != c {
      LastIndexAt(s[..|s| - 1], k, c);
    }
  }
}
