/** Sums and concatenations of sequences, and the fact that neither depends
    on the order in which the pieces arrive. */
module Seqs {

  function Sum(s: seq<int>): int
  {
    if |s| == 0 then 0 else s[0] + Sum(s[1..])
  }

  function Concat<T>(ls: seq<seq<T>>): seq<T>
  {
    if |ls| == 0 then [] else ls[0] + Concat(ls[1..])
  }

  lemma {:induction false} SumAppend(a: seq<int>, b: seq<int>)
    ensures Sum(a + b) == Sum(a) + Sum(b)
  {
    if |a| == 0 {
      assert a + b == b;
    } else {
      assert (a + b)[1..] == a[1..] + b;
      SumAppend(a[1..], b);
    }
  }

  lemma {:induction false} SumNonNegative(s: seq<int>)
    requires forall i :: 0 <= i < |s| ==> s[i] >= 0
    ensures Sum(s) >= 0
  {
    if |s| > 0 {
      SumNonNegative(s[1..]);
    }
  }

  /** A prefix of a sequence of non-negative numbers never sums to more
      than the whole sequence. */
  lemma PrefixSumBounded(s: seq<int>, k: nat)
    requires k <= |s|
    requires forall i :: 0 <= i < |s| ==> s[i] >= 0
    ensures Sum(s[..k]) <= Sum(s)
  {
    assert s == s[..k] + s[k..];
    SumAppend(s[..k], s[k..]);
    SumNonNegative(s[k..]);
  }

  /** Removing the element at index `j` from `s`. */
  lemma {:induction false} SumRemove(s: seq<int>, j: nat)
    requires j < |s|
    ensures Sum(s) == s[j] + Sum(s[..j] + s[j + 1..])
  {
    assert s == s[..j] + ([s[j]] + s[j + 1..]);
    SumAppend(s[..j], [s[j]] + s[j + 1..]);
    SumAppend([s[j]], s[j + 1..]);
    SumAppend(s[..j], s[j + 1..]);
  }

  /** Removing the element at index `j` removes one occurrence of it. */
  lemma RemoveAt<T>(s: seq<T>, j: nat)
    requires j < |s|
    ensures multiset(s) == multiset(s[..j] + s[j + 1..]) + multiset{s[j]}
  {
    assert s == s[..j] + [s[j]] + s[j + 1..];
  }

  lemma Cancel<T>(m: multiset<T>, n: multiset<T>, x: T)
    requires m + multiset{x} == n + multiset{x}
    ensures m == n
  {
    assert forall y :: m[y] == (m + multiset{x})[y] - multiset{x}[y];
    assert forall y :: n[y] == (n + multiset{x})[y] - multiset{x}[y];
  }

  /** The sum of a sequence depends only on its multiset of elements. */
  lemma {:induction false} SumPermutation(a: seq<int>, b: seq<int>)
    requires multiset(a) == multiset(b)
    ensures Sum(a) == Sum(b)
    decreases |a|, 1
  {
    if |a| == 0 {
      assert |b| == |multiset(b)| == 0;
    } else {
      assert a[0] in multiset(b);
      var j :| 0 <= j < |b| && b[j] == a[0];
      SumPermutationStep(a, b, j);
    }
  }

  /** The inductive step: match `a`'s head with an equal element of `b`. */
  lemma {:induction false} SumPermutationStep(a: seq<int>, b: seq<int>, j: nat)
    requires multiset(a) == multiset(b)
    requires 0 < |a| && j < |b| && b[j] == a[0]
    ensures Sum(a) == Sum(b)
    decreases |a|, 0
  {
    var b' := b[..j] + b[j + 1..];
    assert Sum(a[1..]) == Sum(b') by {
      RemoveAt(b, j);
      assert a == [a[0]] + a[1..];
      assert multiset(a) == multiset(a[1..]) + multiset{a[0]};
      assert multiset(a[1..]) == multiset(b') by {
        Cancel(multiset(a[1..]), multiset(b'), a[0]);
      }
      SumPermutation(a[1..], b');
    }
    SumRemove(b, j);
  }

  lemma {:induction false} ConcatAppend<T>(a: seq<seq<T>>, b: seq<seq<T>>)
    ensures Concat(a + b) == Concat(a) + Concat(b)
  {
    if |a| == 0 {
      assert a + b == b;
    } else {
      assert (a + b)[1..] == a[1..] + b;
      ConcatAppend(a[1..], b);
    }
  }

  lemma {:induction false} ConcatRemove<T>(ls: seq<seq<T>>, j: nat)
    requires j < |ls|
    ensures multiset(Concat(ls)) == multiset(ls[j]) + multiset(Concat(ls[..j] + ls[j + 1..]))
  {
    assert ls == ls[..j] + ([ls[j]] + ls[j + 1..]);
    ConcatAppend(ls[..j], [ls[j]] + ls[j + 1..]);
    ConcatAppend([ls[j]], ls[j + 1..]);
    ConcatAppend(ls[..j], ls[j + 1..]);
    assert Concat([ls[j]]) == ls[j] + Concat([ls[j]][1..]);
    assert [ls[j]][1..] == [];
  }

  /** The elements of a concatenation do not depend on the order in which
      the pieces are concatenated. */
  lemma {:induction false} ConcatPermutation<T>(a: seq<seq<T>>, b: seq<seq<T>>)
    requires multiset(a) == multiset(b)
    ensures multiset(Concat(a)) == multiset(Concat(b))
    ensures |Concat(a)| == |Concat(b)|
    decreases |a|, 1
  {
    if |a| == 0 {
      assert |b| == |multiset(b)| == 0;
    } else {
      assert a[0] in multiset(b);
      var j :| 0 <= j < |b| && b[j] == a[0];
      ConcatPermutationStep(a, b, j);
    }
    assert |Concat(a)| == |multiset(Concat(a))|;
    assert |Concat(b)| == |multiset(Concat(b))|;
  }

  /** The inductive step: match `a`'s head with an equal piece of `b`. */
  lemma {:induction false} ConcatPermutationStep<T>(a: seq<seq<T>>, b: seq<seq<T>>, j: nat)
    requires multiset(a) == multiset(b)
    requires 0 < |a| && j < |b| && b[j] == a[0]
    ensures multiset(Concat(a)) == multiset(Concat(b))
    decreases |a|, 0
  {
    var b' := b[..j] + b[j + 1..];
    assert multiset(Concat(a[1..])) == multiset(Concat(b')) by {
      RemoveAt(b, j);
      assert a == [a[0]] + a[1..];
      assert multiset(a) == multiset(a[1..]) + multiset{a[0]};
      assert multiset(a[1..]) == multiset(b') by {
        Cancel(multiset(a[1..]), multiset(b'), a[0]);
      }
      ConcatPermutation(a[1..], b');
    }
    assert multiset(Concat(b)) == multiset(b[j]) + multiset(Concat(b')) by {
      ConcatRemove(b, j);
    }
    assert multiset(Concat(a)) == multiset(a[0]) + multiset(Concat(a[1..])) by {
      assert Concat(a) == a[0] + Concat(a[1..]);
    }
  }

  /** Extending a prefix of the pieces by one piece appends that piece. */
  lemma ConcatPrefixStep<T>(ls: seq<seq<T>>, j: nat)
    requires j < |ls|
    ensures Concat(ls[..j + 1]) == Concat(ls[..j]) + ls[j]
  {
    assert ls[..j + 1] == ls[..j] + [ls[j]];
    ConcatAppend(ls[..j], [ls[j]]);
    assert Concat([ls[j]]) == ls[j] + Concat([ls[j]][1..]);
    assert [ls[j]][1..] == [];
  }

  /** Some piece of `ls` holds `x`. */
  ghost predicate InSomePiece<T>(ls: seq<seq<T>>, x: T)
  {
    exists i :: 0 <= i < |ls| && x in ls[i]
  }

  /** A concatenation holds exactly the elements of its pieces. */
  lemma {:induction false} ConcatMembers<T>(ls: seq<seq<T>>, x: T)
    ensures x in Concat(ls) <==> exists i :: 0 <= i < |ls| && x in ls[i]
  {
    if |ls| > 0 {
      ConcatMembers(ls[1..], x);
      if x in Concat(ls[1..]) {
        var i :| 0 <= i < |ls[1..]| && x in ls[1..][i];
        assert x in ls[i + 1];
      }
      if exists i :: 0 <= i < |ls| && x in ls[i] {
        var i :| 0 <= i < |ls| && x in ls[i];
        if i > 0 {
          assert x in ls[1..][i - 1];
        }
      }
    }
  }

  /** The length of a concatenation is the sum of the pieces' lengths. */
  lemma {:induction false} ConcatLength<T>(ls: seq<seq<T>>, lengths: seq<int>)
    requires |lengths| == |ls|
    requires forall i :: 0 <= i < |ls| ==> |ls[i]| == lengths[i]
    ensures |Concat(ls)| == Sum(lengths)
  {
    if |ls| > 0 {
      ConcatLength(ls[1..], lengths[1..]);
    }
  }
}
