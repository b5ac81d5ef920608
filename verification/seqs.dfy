/** Searches and sums over sequences, and multisets of nested sequences. */
module Seqs {

  /** No element occurs twice. */
  predicate Distinct<T(==)>(s: seq<T>)
  {
    forall i, j :: 0 <= i < j < |s| ==> s[i] != s[j]
  }

  /** Position of the first occurrence of `x` in `s`, or -1 when absent. */
  function IndexOf<T(==)>(s: seq<T>, x: T): (i: int)
    ensures -1 <= i < |s|
    ensures i == -1 <==> x !in s
    ensures 0 <= i ==> s[i] == x && x !in s[..i]
  {
    if |s| == 0 then -1
    else if s[0] == x then 0
    else
      var j := IndexOf(s[1..], x);
      assert s == [s[0]] + s[1..];
      if j == -1 then -1
      else
        assert s[j + 1] == x;
        assert s[..j + 1] == [s[0]] + s[1..][..j];
        j + 1
  }

  /** The sum of `f` over the elements of `s`, taken from the front. */
  function SumOf<T>(s: seq<T>, f: T -> int): int
  {
    if |s| == 0 then 0 else f(s[0]) + SumOf(s[1..], f)
  }

  lemma {:induction false} SumOfConcat<T>(a: seq<T>, b: seq<T>, f: T -> int)
    ensures SumOf(a + b, f) == SumOf(a, f) + SumOf(b, f)
  {
    if |a| == 0 {
      assert a + b == b;
    } else {
      assert (a + b)[1..] == a[1..] + b;
      SumOfConcat(a[1..], b, f);
    }
  }

  /** A sum does not depend on the order of the elements summed. */
  lemma {:induction false} SumOfPermutation<T>(a: seq<T>, b: seq<T>, f: T -> int)
    requires multiset(a) == multiset(b)
    ensures SumOf(a, f) == SumOf(b, f)
    decreases |a|
  {
    if |a| == 0 {
      assert |b| == |multiset(b)| == 0;
    } else {
      var x := a[0];
      assert x in multiset(b);
      var k :| 0 <= k < |b| && b[k] == x;
      var rest := b[..k] + b[k + 1..];
      assert b == b[..k] + [x] + b[k + 1..];
      assert a == [x] + a[1..];
      assert multiset(b) == multiset(b[..k]) + multiset{x} + multiset(b[k + 1..]);
      assert multiset(a) == multiset{x} + multiset(a[1..]);
      assert multiset(rest) == multiset(b[..k]) + multiset(b[k + 1..]);
      assert multiset(rest) == multiset(b) - multiset{x};
      assert multiset(a[1..]) == multiset(a) - multiset{x};
      SumOfPermutation(a[1..], rest, f);
      SumOfConcat(b[..k] + [x], b[k + 1..], f);
      SumOfConcat(b[..k], [x], f);
      SumOfConcat(b[..k], b[k + 1..], f);
    }
  }

  /** All elements of the nested sequences, with multiplicity. */
  function FlatMultiset<T>(hs: seq<seq<T>>): multiset<T>
  {
    if |hs| == 0 then multiset{} else multiset(hs[0]) + FlatMultiset(hs[1..])
  }

  /** Appending `x` to one of the inner sequences adds exactly `x`. */
  lemma {:induction false} FlatMultisetAppend<T>(hs: seq<seq<T>>, k: nat, x: T)
    requires k < |hs|
    ensures FlatMultiset(hs[k := hs[k] + [x]]) == FlatMultiset(hs) + multiset{x}
  {
    var hs' := hs[k := hs[k] + [x]];
    if k == 0 {
      assert hs'[1..] == hs[1..];
    } else {
      assert hs'[1..] == hs[1..][k - 1 := hs[k] + [x]];
      FlatMultisetAppend(hs[1..], k - 1, x);
    }
  }

  /** Replacing one inner sequence changes the whole by exactly that difference. */
  lemma {:induction false} FlatMultisetReplace<T>(hs: seq<seq<T>>, k: nat, h: seq<T>)
    requires k < |hs|
    ensures FlatMultiset(hs[k := h]) + multiset(hs[k]) == FlatMultiset(hs) + multiset(h)
  {
    if k == 0 {
      assert hs[k := h][1..] == hs[1..];
      assert FlatMultiset(hs[k := h]) == multiset(h) + FlatMultiset(hs[1..]);
    } else {
      assert hs[k := h][1..] == hs[1..][k - 1 := h];
      assert hs[1..][k - 1] == hs[k];
      FlatMultisetReplace(hs[1..], k - 1, h);
      assert hs[k := h][0] == hs[0];
      var rest := FlatMultiset(hs[1..][k - 1 := h]);
      assert rest + multiset(hs[k]) == FlatMultiset(hs[1..]) + multiset(h);
      calc {
        FlatMultiset(hs[k := h]) + multiset(hs[k]);
        multiset(hs[0]) + rest + multiset(hs[k]);
        multiset(hs[0]) + (rest + multiset(hs[k]));
        multiset(hs[0]) + (FlatMultiset(hs[1..]) + multiset(h));
        multiset(hs[0]) + FlatMultiset(hs[1..]) + multiset(h);
        FlatMultiset(hs) + multiset(h);
      }
    }
  }

  /** Taking `gone` out of one inner sequence takes exactly `gone` out of the
      whole. */
  lemma FlatMultisetTake<T>(hs: seq<seq<T>>, k: nat, h: seq<T>, gone: multiset<T>)
    requires k < |hs| && multiset(hs[k]) == multiset(h) + gone
    ensures FlatMultiset(hs[k := h]) + gone == FlatMultiset(hs)
  {
    FlatMultisetReplace(hs, k, h);
    var after, kept := FlatMultiset(hs[k := h]), multiset(h);
    assert (after + gone) + kept == after + (kept + gone);
    MultisetCancel(after + gone, FlatMultiset(hs), kept);
  }

  /** A common part added to both sides can be taken away again. */
  lemma MultisetCancel<T>(a: multiset<T>, b: multiset<T>, c: multiset<T>)
    requires a + c == b + c
    ensures a == b
  {
    assert a == (a + c) - c;
    assert b == (b + c) - c;
  }

  /** The inner sequences are all empty exactly when nothing is held. */
  lemma {:induction false} FlatMultisetEmpty<T>(hs: seq<seq<T>>)
    ensures FlatMultiset(hs) == multiset{} <==> forall k :: 0 <= k < |hs| ==> hs[k] == []
  {
    if |hs| > 0 {
      FlatMultisetEmpty(hs[1..]);
      if multiset(hs[0]) == multiset{} {
        assert |hs[0]| == |multiset(hs[0])| == 0;
      }
      assert forall k :: 1 <= k < |hs| ==> hs[k] == hs[1..][k - 1];
    }
  }

  /** Extending a prefix by one element adds exactly that element. */
  lemma PrefixGrows<T>(s: seq<T>, i: nat)
    requires i < |s|
    ensures multiset(s[..i + 1]) == multiset(s[..i]) + multiset{s[i]}
  {
    assert s[..i + 1] == s[..i] + [s[i]];
  }

  /** An element at two different positions is counted at least twice. */
  lemma RepeatedCountsTwice<T>(s: seq<T>, i: nat, j: nat)
    requires i < j < |s| && s[i] == s[j]
    ensures multiset(s)[s[i]] >= 2
  {
    assert s == s[..j] + s[j..];
    assert s[i] in s[..j];
    assert s[j] in s[j..];
  }
}
