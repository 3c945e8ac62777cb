/** Vocabulary shared by every component: optional values and a few functions on
    sequences, each with the lemmas the components rely on. */
module Prelude {

  datatype Option<+T> = None | Some(value: T)

  function Elements<T>(s: seq<T>): set<T> {
    set x | x in s
  }

  ghost predicate Distinct<T>(s: seq<T>) {
    forall i, j :: 0 <= i < j < |s| ==> s[i] != s[j]
  }

  lemma Reassociate<T>(a: seq<T>, x: T, b: seq<T>)
    ensures a + ([x] + b) == (a + [x]) + b
  {
  }

  /** The elements of `s` that satisfy `p`, in order. */
  function Filter<T(!new)>(p: T -> bool, s: seq<T>): (r: seq<T>)
    ensures forall x :: x in r <==> x in s && p(x)
  {
    if s == [] then []
    else if p(s[0]) then [s[0]] + Filter(p, s[1..])
    else Filter(p, s[1..])
  }

  lemma {:induction false} FilterConcat<T(!new)>(p: T -> bool, a: seq<T>, b: seq<T>)
    ensures Filter(p, a + b) == Filter(p, a) + Filter(p, b)
  {
    if a == [] {
      assert a + b == b;
    } else {
      assert (a + b)[1..] == a[1..] + b;
      FilterConcat(p, a[1..], b);
    }
  }

  lemma {:induction false} FilterAll<T(!new)>(p: T -> bool, s: seq<T>)
    requires forall x :: x in s ==> p(x)
    ensures Filter(p, s) == s
  {
    if s != [] {
      FilterAll(p, s[1..]);
    }
  }

  lemma {:induction false} FilterLength<T(!new)>(p: T -> bool, s: seq<T>)
    ensures |Filter(p, s)| <= |s|
  {
    if s != [] {
      FilterLength(p, s[1..]);
    }
  }

  /** `sub` arises from `s` by deleting elements. */
  ghost predicate IsSubsequence<T>(sub: seq<T>, s: seq<T>) {
    sub == [] ||
    (s != [] && (if sub[0] == s[0] then IsSubsequence(sub[1..], s[1..]) else IsSubsequence(sub, s[1..])))
  }

  /** A stronger test keeps a subsequence of what a weaker test keeps. */
  lemma {:induction false} StrongerFilterIsSubsequence<T(!new)>(p: T -> bool, q: T -> bool, s: seq<T>)
    requires forall x :: x in s && p(x) ==> q(x)
    ensures IsSubsequence(Filter(p, s), Filter(q, s))
  {
    if s != [] {
      StrongerFilterIsSubsequence(p, q, s[1..]);
      var a, b := Filter(p, s[1..]), Filter(q, s[1..]);
      if !p(s[0]) && q(s[0]) {
        SubsequenceSkip(a, s[0], b);
        assert Filter(p, s) == a;
        assert Filter(q, s) == [s[0]] + b;
      }
      if p(s[0]) {
        assert q(s[0]);
        assert Filter(p, s) == [s[0]] + a && Filter(p, s)[1..] == a;
        assert Filter(q, s) == [s[0]] + b && Filter(q, s)[1..] == b;
      }
    }
  }

  lemma {:induction false} SubsequenceSkip<T>(a: seq<T>, x: T, b: seq<T>)
    requires IsSubsequence(a, b)
    ensures IsSubsequence(a, [x] + b)
    decreases |b|, 1
  {
    assert ([x] + b)[1..] == b;
    if a != [] && a[0] == x {
      SubsequenceTail(a, b);
    }
  }

  lemma {:induction false} SubsequenceTail<T>(a: seq<T>, b: seq<T>)
    requires a != [] && IsSubsequence(a, b)
    ensures IsSubsequence(a[1..], b)
    decreases |b|, 0
  {
    if a[0] == b[0] {
      SubsequenceSkip(a[1..], b[0], b[1..]);
      assert b == [b[0]] + b[1..];
    } else {
      SubsequenceTail(a, b[1..]);
      SubsequenceSkip(a[1..], b[0], b[1..]);
      assert b == [b[0]] + b[1..];
    }
  }

  lemma {:induction false} SubsequenceConcat<T>(a: seq<T>, b: seq<T>, c: seq<T>, d: seq<T>)
    requires IsSubsequence(a, b) && IsSubsequence(c, d)
    ensures IsSubsequence(a + c, b + d)
    decreases |b|
  {
    if b == [] {
      assert a + c == c && b + d == d;
    } else {
      assert b + d == [b[0]] + (b[1..] + d);
      if a != [] && a[0] == b[0] {
        SubsequenceConcat(a[1..], b[1..], c, d);
        assert (a + c)[1..] == a[1..] + c && (b + d)[1..] == b[1..] + d;
      } else {
        SubsequenceConcat(a, b[1..], c, d);
        SubsequenceSkip(a + c, b[0], b[1..] + d);
      }
    }
  }

  /** When a stronger test keeps as much as a weaker one, the two agree on every element. */
  lemma {:induction false} EqualFiltersAgree<T(!new)>(p: T -> bool, q: T -> bool, s: seq<T>)
    requires forall x :: x in s && p(x) ==> q(x)
    ensures |Filter(p, s)| <= |Filter(q, s)|
    ensures |Filter(p, s)| == |Filter(q, s)| ==> forall x :: x in s ==> p(x) == q(x)
  {
    if s != [] {
      EqualFiltersAgree(p, q, s[1..]);
    }
  }

  lemma FilterSnoc<T(!new)>(p: T -> bool, s: seq<T>, x: T)
    ensures Filter(p, s + [x]) == Filter(p, s) + if p(x) then [x] else []
  {
    FilterConcat(p, s, [x]);
  }

  lemma {:induction false} NoneFilter<T(!new)>(p: T -> bool, s: seq<T>)
    requires forall x :: x in s ==> !p(x)
    ensures Filter(p, s) == []
  {
    if s != [] {
      NoneFilter(p, s[1..]);
    }
  }

  lemma {:induction false} FiltersAgree<T(!new)>(p: T -> bool, q: T -> bool, s: seq<T>)
    requires forall x :: x in s ==> p(x) == q(x)
    ensures Filter(p, s) == Filter(q, s)
  {
    if s != [] {
      FiltersAgree(p, q, s[1..]);
    }
  }

  lemma {:induction false} FilterCounts<T(!new)>(p: T -> bool, s: seq<T>, x: T)
    ensures multiset(Filter(p, s))[x] == if p(x) then multiset(s)[x] else 0
  {
    if s != [] {
      FilterCounts(p, s[1..], x);
      assert s == [s[0]] + s[1..];
    }
  }

  lemma TwiceCounts<T>(s: seq<T>, i: nat, j: nat)
    requires i < j < |s| && s[i] == s[j]
    ensures multiset(s)[s[i]] >= 2
  {
    assert s == s[..i] + [s[i]] + s[i + 1..j] + [s[j]] + s[j + 1..];
  }

  // ---- Concatenation of many --------------------------------------------------------------

  function Flatten<T>(parts: seq<seq<T>>): seq<T> {
    if parts == [] then [] else parts[0] + Flatten(parts[1..])
  }

  lemma {:induction false} FlattenConcat<T>(a: seq<seq<T>>, b: seq<seq<T>>)
    ensures Flatten(a + b) == Flatten(a) + Flatten(b)
  {
    if a == [] {
      assert a + b == b;
    } else {
      assert (a + b)[1..] == a[1..] + b;
      FlattenConcat(a[1..], b);
    }
  }

  lemma FlattenSnoc<T>(parts: seq<seq<T>>, part: seq<T>)
    ensures Flatten(parts + [part]) == Flatten(parts) + part
  {
    FlattenConcat(parts, [part]);
    assert Flatten([part]) == part;
  }
}
