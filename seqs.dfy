/** `Array.prototype.filter` and the few facts about it the engine relies on. */
module Seqs {

  /** No element occurs twice. */
  predicate Distinct<T(==)>(s: seq<T>) {
    forall i, j :: 0 <= i < j < |s| ==> s[i] != s[j]
  }

  /** `s.filter(p)`: the elements of `s` that satisfy `p`, in their order. */
  function Filter<T>(s: seq<T>, p: T -> bool): (r: seq<T>)
    ensures |r| <= |s|
  {
    if s == [] then []
    else Filter(s[..|s| - 1], p) + (if p(s[|s| - 1]) then [s[|s| - 1]] else [])
  }

  /** The filtered list holds exactly the elements that pass, and no more copies of any than the list. */
  lemma {:induction false} FilterMembers<T(!new)>(s: seq<T>, p: T -> bool)
    ensures forall x :: x in Filter(s, p) <==> x in s && p(x)
    ensures multiset(Filter(s, p)) <= multiset(s)
    decreases |s|
  {
    if s != [] {
      FilterMembers(s[..|s| - 1], p);
      assert s == s[..|s| - 1] + [s[|s| - 1]];
    }
  }

  /** Every element of the filtered list passes. */
  lemma {:induction false} FilterSatisfies<T>(s: seq<T>, p: T -> bool)
    ensures forall i :: 0 <= i < |Filter(s, p)| ==> p(Filter(s, p)[i])
    decreases |s|
  {
    if s != [] {
      FilterSatisfies(s[..|s| - 1], p);
    }
  }

  /** A property every element has, every element of the filtered list has. */
  lemma {:induction false} FilterKeeps<T>(s: seq<T>, p: T -> bool, q: T -> bool)
    requires forall i :: 0 <= i < |s| ==> q(s[i])
    ensures forall i :: 0 <= i < |Filter(s, p)| ==> q(Filter(s, p)[i])
    decreases |s|
  {
    if s != [] {
      FilterKeeps(s[..|s| - 1], p, q);
    }
  }

  /** A property every element has, every element of a permutation has. */
  lemma PermutationKeeps<T>(s: seq<T>, t: seq<T>, q: T -> bool)
    requires multiset(s) == multiset(t)
    requires forall i :: 0 <= i < |s| ==> q(s[i])
    ensures forall i :: 0 <= i < |t| ==> q(t[i])
  {
    forall i | 0 <= i < |t| ensures q(t[i]) {
      assert t[i] in multiset(s);
      var j :| 0 <= j < |s| && s[j] == t[i];
    }
  }

  lemma {:induction false} FilterAppend<T(!new)>(a: seq<T>, b: seq<T>, p: T -> bool)
    ensures Filter(a + b, p) == Filter(a, p) + Filter(b, p)
    decreases |b|
  {
    if b == [] {
      assert a + b == a;
    } else {
      assert (a + b)[..|a + b| - 1] == a + b[..|b| - 1];
      FilterAppend(a, b[..|b| - 1], p);
    }
  }

  /**
    Inserting `x`, which `p` keeps, at position `j`, where every later
    element is rejected by `p`, adds `x` at the end of what `p` keeps.
  */
  lemma FilterAround<T(!new)>(s: seq<T>, x: T, j: nat, p: T -> bool)
    requires j <= |s| && p(x) && Filter(s[j..], p) == []
    ensures Filter(s[..j] + [x] + s[j..], p) == Filter(s, p) + [x]
  {
    var a, u := s[..j], s[j..];
    assert s == a + u;
    FilterAppend(a, u, p);
    assert Filter(s, p) == Filter(a, p);
    FilterAppend(a + [x], u, p);
    assert Filter(a + [x] + u, p) == Filter(a + [x], p);
    assert (a + [x])[..|a + [x]| - 1] == a;
    assert Filter(a + [x], p) == Filter(a, p) + [x];
  }

  /** A prefix that passes throughout, followed by elements that all fail, is what filtering keeps. */
  lemma FilterKeepsPrefix<T(!new)>(a: seq<T>, s: seq<T>, p: T -> bool)
    requires |a| <= |s| && s[..|a|] == a
    requires forall x :: x in a ==> p(x)
    requires forall i :: |a| <= i < |s| ==> !p(s[i])
    ensures Filter(s, p) == a
  {
    var e := s[|a|..];
    assert s == a + e;
    forall i | 0 <= i < |e| ensures !p(e[i]) {
      assert e[i] == s[|a| + i];
    }
    FilterAll(a, p);
    FilterNone(e, p);
    FilterAppend(a, e, p);
    assert Filter(s, p) == a + [];
  }

  /** Filtering keeps everything when everything passes. */
  lemma {:induction false} FilterAll<T(!new)>(s: seq<T>, p: T -> bool)
    requires forall x :: x in s ==> p(x)
    ensures Filter(s, p) == s
    decreases |s|
  {
    if s != [] {
      assert s == s[..|s| - 1] + [s[|s| - 1]];
      FilterAll(s[..|s| - 1], p);
    }
  }

  /** Filtering drops everything when nothing passes. */
  lemma {:induction false} FilterNone<T>(s: seq<T>, p: T -> bool)
    requires forall i :: 0 <= i < |s| ==> !p(s[i])
    ensures Filter(s, p) == []
    decreases |s|
  {
    if s != [] {
      assert s == s[..|s| - 1] + [s[|s| - 1]];
      FilterNone(s[..|s| - 1], p);
    }
  }

  /** Filtering keeps a list free of repetitions. */
  lemma {:induction false} FilterDistinct<T(!new)>(s: seq<T>, p: T -> bool)
    requires Distinct(s)
    ensures Distinct(Filter(s, p))
    decreases |s|
  {
    if s != [] {
      var init := s[..|s| - 1];
      FilterDistinct(init, p);
      FilterMembers(init, p);
      assert s[|s| - 1] !in init;
    }
  }

  /** Each element occurs in the filtered list as often as in the list when it passes, and never otherwise. */
  lemma {:induction false} FilterMultiplicity<T(!new)>(s: seq<T>, p: T -> bool, x: T)
    ensures multiset(Filter(s, p))[x] == if p(x) then multiset(s)[x] else 0
    decreases |s|
  {
    if s != [] {
      var init := s[..|s| - 1];
      FilterMultiplicity(init, p, x);
      assert s == init + [s[|s| - 1]];
    }
  }

  /** Filtering two permutations of each other gives permutations of each other. */
  lemma FilterPerm<T(!new)>(a: seq<T>, b: seq<T>, p: T -> bool)
    requires multiset(a) == multiset(b)
    ensures multiset(Filter(a, p)) == multiset(Filter(b, p))
  {
    forall x ensures multiset(Filter(a, p))[x] == multiset(Filter(b, p))[x] {
      FilterMultiplicity(a, p, x);
      FilterMultiplicity(b, p, x);
    }
  }

  /** How many elements of a list pass is a property of its multiset alone. */
  lemma FilterCountPerm<T(!new)>(a: seq<T>, b: seq<T>, p: T -> bool)
    requires multiset(a) == multiset(b)
    ensures |Filter(a, p)| == |Filter(b, p)|
  {
    FilterPerm(a, b, p);
    assert |Filter(a, p)| == |multiset(Filter(a, p))|;
  }
}
