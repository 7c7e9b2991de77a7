/** Splitting and joining sequences at a separator element, as Go's strings.Split and strings.Join do. */
module Strings {

  function Count<T(==)>(s: seq<T>, c: T): nat {
    if s == [] then 0 else (if s[0] == c then 1 else 0) + Count(s[1..], c)
  }

  /** Index of the first `c`, or the length when there is none. */
  function IndexOf<T(==)>(s: seq<T>, c: T): (i: nat)
    ensures i <= |s|
    ensures i < |s| ==> s[i] == c
    ensures c !in s[..i]
  {
    if s == [] || s[0] == c then 0
    else
      var i := IndexOf(s[1..], c);
      assert s[..1 + i] == [s[0]] + s[1..][..i];
      1 + i
  }

  /** The pieces between separators; always at least one piece. */
  function Split<T(==)>(s: seq<T>, c: T): (parts: seq<seq<T>>)
    ensures parts != []
    decreases |s|
  {
    var i := IndexOf(s, c);
    if i == |s| then [s] else [s[..i]] + Split(s[i + 1..], c)
  }

  /** One unfolding of Split, for proofs that hide its body. */
  lemma SplitStep<T>(s: seq<T>, c: T)
    ensures var i := IndexOf(s, c);
            Split(s, c) == if i == |s| then [s[..i]] else [s[..i]] + Split(s[i + 1..], c)
  {
    hide IndexOf;
    assert s[..|s|] == s;
  }

  function Join<T>(parts: seq<seq<T>>, c: T): seq<T> {
    if parts == [] then []
    else if |parts| == 1 then parts[0]
    else parts[0] + [c] + Join(parts[1..], c)
  }

  /** Looking for a separator behind a piece that has none. */
  lemma {:induction false} IndexBehind<T>(p: seq<T>, c: T, rest: seq<T>)
    requires c !in p
    ensures IndexOf(p + [c] + rest, c) == |p|
    ensures IndexOf(p, c) == |p|
    decreases |p|
  {
    var s := p + [c] + rest;
    if p != [] {
      assert s[1..] == p[1..] + [c] + rest;
      IndexBehind(p[1..], c, rest);
    }
  }

  lemma SplitBehind<T>(p: seq<T>, c: T, rest: seq<T>)
    requires c !in p
    ensures Split(p + [c] + rest, c) == [p] + Split(rest, c)
    ensures Split(p, c) == [p]
  {
    IndexBehind(p, c, rest);
    var s := p + [c] + rest;
    assert s[..|p|] == p && s[|p| + 1..] == rest;
  }

  /** Splitting undoes joining exactly when no piece holds the separator. */
  lemma {:induction false} SplitJoin<T>(parts: seq<seq<T>>, c: T)
    requires parts != []
    ensures Split(Join(parts, c), c) == parts <==> forall p :: p in parts ==> c !in p
    decreases |parts|
  {
    if forall p :: p in parts ==> c !in p {
      SplitJoinClean(parts, c);
    } else {
      SplitPiecesAreClean(Join(parts, c), c);
    }
  }

  lemma {:induction false} SplitJoinClean<T>(parts: seq<seq<T>>, c: T)
    requires parts != [] && forall p :: p in parts ==> c !in p
    ensures Split(Join(parts, c), c) == parts
    decreases |parts|
  {
    assert parts[0] in parts;
    if |parts| == 1 {
      SplitBehind(parts[0], c, []);
    } else {
      SplitJoinClean(parts[1..], c);
      SplitBehind(parts[0], c, Join(parts[1..], c));
    }
  }

  lemma {:induction false} SplitPiecesAreClean<T>(s: seq<T>, c: T)
    ensures forall p :: p in Split(s, c) ==> c !in p
    decreases |s|
  {
    var i := IndexOf(s, c);
    if i < |s| {
      SplitPiecesAreClean(s[i + 1..], c);
    } else {
      assert s[..i] == s;
    }
  }

  lemma {:induction false} SplitCount<T>(s: seq<T>, c: T)
    ensures |Split(s, c)| == Count(s, c) + 1
    decreases |s|
  {
    hide IndexOf;
    var i := IndexOf(s, c);
    CountBefore(s, c, i);
    var t := s[i..];
    if i < |s| {
      SplitCount(s[i + 1..], c);
      assert t[1..] == s[i + 1..];
    } else {
      assert t == [];
    }
  }

  lemma {:induction false} CountBefore<T>(s: seq<T>, c: T, i: nat)
    requires i <= |s| && c !in s[..i]
    ensures Count(s, c) == Count(s[i..], c)
    decreases i
  {
    if i == 0 {
      assert s[0..] == s;
    } else {
      assert s[0] == s[..i][0];
      assert s[1..][..i - 1] == s[..i][1..];
      CountBefore(s[1..], c, i - 1);
      assert s[1..][i - 1..] == s[i..];
    }
  }

  lemma {:induction false} CountConcat<T>(a: seq<T>, b: seq<T>, c: T)
    ensures Count(a + b, c) == Count(a, c) + Count(b, c)
    decreases |a|
  {
    if a == [] {
      assert a + b == b;
    } else {
      assert (a + b)[1..] == a[1..] + b;
      CountConcat(a[1..], b, c);
    }
  }
}
