/** Generic facts about sequences used by the memory model. */
module Sequences {

  function Min(a: int, b: int): (m: int)
    ensures m <= a && m <= b
    ensures m == a || m == b
  {
    if a <= b then a else b
  }

  /** Concatenation regroups freely (a step the solver does not always find among other facts). */
  lemma ConcatAssociative<T>(x: seq<T>, y: seq<T>, z: seq<T>)
    ensures x + (y + z) == (x + y) + z
  {
  }

  /** The first `n` elements of `s`, or all of `s` when it is shorter. */
  function Take<T>(s: seq<T>, n: nat): (p: seq<T>)
    ensures p <= s
    ensures |p| == Min(n, |s|)
  {
    if n < |s| then s[..n] else s
  }

  /** No element occurs twice. */
  predicate Distinct<T(==)>(s: seq<T>) {
    forall i, j | 0 <= i < j < |s| :: s[i] != s[j]
  }

  /** `a` is obtained from `b` by deleting elements, keeping the order of the rest. */
  predicate Subseq<T(==)>(a: seq<T>, b: seq<T>)
    decreases |b|
  {
    || a == []
    || (&& b != []
        && (|| (a[|a| - 1] == b[|b| - 1] && Subseq(a[..|a| - 1], b[..|b| - 1]))
            || Subseq(a, b[..|b| - 1])))
  }

  /** A subsequence of `b` is a subsequence of `b` with an element put in front. */
  lemma {:induction false} SubseqUnderPrepend<T>(x: T, a: seq<T>, b: seq<T>)
    requires Subseq(a, b)
    ensures Subseq(a, [x] + b)
    decreases |b|
  {
    if a != [] {
      var xb := [x] + b;
      assert xb[..|xb| - 1] == [x] + b[..|b| - 1];
      assert xb[|xb| - 1] == b[|b| - 1];
      if a[|a| - 1] == b[|b| - 1] && Subseq(a[..|a| - 1], b[..|b| - 1]) {
        SubseqUnderPrepend(x, a[..|a| - 1], b[..|b| - 1]);
      } else {
        SubseqUnderPrepend(x, a, b[..|b| - 1]);
      }
    }
  }

  /** Putting the same element in front of both sides keeps a subsequence. */
  lemma {:induction false} SubseqPrependBoth<T>(x: T, a: seq<T>, b: seq<T>)
    requires Subseq(a, b)
    ensures Subseq([x] + a, [x] + b)
    decreases |b|
  {
    var xa := [x] + a;
    var xb := [x] + b;
    if b == [] {
      assert a == [];
      assert xa[..0] == [] && xb[..0] == [];
    } else {
      assert xb[..|xb| - 1] == [x] + b[..|b| - 1];
      assert xb[|xb| - 1] == b[|b| - 1];
      if a == [] {
        SubseqPrependBoth(x, a, b[..|b| - 1]);
      } else {
        assert xa[..|xa| - 1] == [x] + a[..|a| - 1];
        assert xa[|xa| - 1] == a[|a| - 1];
        if a[|a| - 1] == b[|b| - 1] && Subseq(a[..|a| - 1], b[..|b| - 1]) {
          SubseqPrependBoth(x, a[..|a| - 1], b[..|b| - 1]);
        } else {
          SubseqPrependBoth(x, a, b[..|b| - 1]);
        }
      }
    }
  }
}
