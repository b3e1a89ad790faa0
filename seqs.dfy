/** Facts about lists of addresses and ids that enumerate a set, as the arrays built by `toArray()` do. */
module Seqs {

  /** No element occurs twice in `s`. */
  predicate Distinct(s: seq<string>)
  {
    forall i, j :: 0 <= i < j < |s| ==> s[i] != s[j]
  }

  /** `s` lists every element of `xs` exactly once, in some order. */
  predicate Enumerates(s: seq<string>, xs: set<string>)
  {
    && Distinct(s)
    && |s| == |xs|
    && (forall x :: x in s ==> x in xs)
    && (forall x :: x in xs ==> x in s)
  }

  function Min(a: int, b: int): int
  {
    if a <= b then a else b
  }

  /** The set of the first `n` elements of `s`. */
  function PrefixSet(s: seq<string>, n: nat): set<string>
    requires n <= |s|
  {
    set i | 0 <= i < n :: s[i]
  }

  /** The first `n` elements of a sequence without repetitions form a set of `n` elements. */
  lemma {:induction false} PrefixSetSize(s: seq<string>, n: nat)
    requires Distinct(s) && n <= |s|
    ensures |PrefixSet(s, n)| == n
  {
    if n > 0 {
      PrefixSetSize(s, n - 1);
      assert PrefixSet(s, n) == PrefixSet(s, n - 1) + {s[n - 1]};
      assert s[n - 1] !in PrefixSet(s, n - 1);
    } else {
      assert PrefixSet(s, n) == {};
    }
  }

  /**
   * `toArray()` of a set: every element once, in an order the model leaves
   * open (a hash set's iteration order).
   */
  method ToSeq(xs: set<string>) returns (s: seq<string>)
    ensures Enumerates(s, xs)
  {
    s := [];
    var rest := xs;
    while rest != {}
      invariant rest <= xs
      invariant Distinct(s)
      invariant forall x :: x in s ==> x in xs && x !in rest
      invariant forall x :: x in xs ==> x in s || x in rest
      invariant |s| + |rest| == |xs|
      decreases |rest|
    {
      var x :| x in rest;
      s := s + [x];
      rest := rest - {x};
    }
  }
}
