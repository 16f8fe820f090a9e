/** Sequence helpers behind the program's LINQ calls: FirstOrDefault, Sum, and distinctness. */
module Seqs {
  import opened Wrappers

  /** Enumerable.FirstOrDefault(predicate), as the position of the first element accepted. */
  function First<T>(s: seq<T>, accept: T -> bool): (r: Option<nat>)
    ensures r.Some? ==> r.value < |s| && accept(s[r.value])
    ensures r.Some? ==> forall j | 0 <= j < r.value :: !accept(s[j])
    ensures r.None? <==> forall j | 0 <= j < |s| :: !accept(s[j])
  {
    if s == [] then None
    else if accept(s[0]) then Some(0)
    else
      match First(s[1..], accept)
      case None => None
      case Some(k) => Some(k + 1)
  }

  /** Position i holds the first element accepted: the one FirstOrDefault finds. */
  predicate FirstAccepted<T>(s: seq<T>, accept: T -> bool, i: nat) {
    i < |s| && accept(s[i]) && forall j | 0 <= j < i :: !accept(s[j])
  }

  /** The first accepted position is the one First finds. */
  lemma FirstAcceptedIsFirst<T>(s: seq<T>, accept: T -> bool, i: nat)
    requires FirstAccepted(s, accept, i)
    ensures First(s, accept) == Some(i)
  {
  }

  function Reverse<T>(s: seq<T>): seq<T> {
    seq(|s|, i requires 0 <= i < |s| => s[|s| - 1 - i])
  }

  /** Enumerable.Sum(selector). */
  function SumOf<T>(s: seq<T>, f: T -> int): int {
    if s == [] then 0 else f(s[0]) + SumOf(s[1..], f)
  }

  lemma {:induction false} SumOfAppend<T>(s: seq<T>, x: T, f: T -> int)
    ensures SumOf(s + [x], f) == SumOf(s, f) + f(x)
  {
    if s != [] {
      assert (s + [x])[1..] == s[1..] + [x];
      SumOfAppend(s[1..], x, f);
    }
  }

  lemma {:induction false} SumOfUpdate<T>(s: seq<T>, i: nat, x: T, f: T -> int)
    requires i < |s|
    ensures SumOf(s[i := x], f) == SumOf(s, f) - f(s[i]) + f(x)
  {
    if i > 0 {
      assert s[i := x][1..] == s[1..][i - 1 := x];
      SumOfUpdate(s[1..], i - 1, x, f);
    }
  }

  /** Two sequences whose elements agree pointwise under their selectors have equal sums. */
  lemma {:induction false} SumOfPointwise<A, B>(a: seq<A>, f: A -> int, b: seq<B>, g: B -> int)
    requires |a| == |b|
    requires forall i | 0 <= i < |a| :: f(a[i]) == g(b[i])
    ensures SumOf(a, f) == SumOf(b, g)
  {
    if a != [] {
      SumOfPointwise(a[1..], f, b[1..], g);
    }
  }

  ghost predicate NoDuplicates<T>(s: seq<T>) {
    forall i, j | 0 <= i < j < |s| :: s[i] != s[j]
  }

  lemma {:induction false} NoDuplicatesCount<T>(s: seq<T>, x: T)
    requires NoDuplicates(s)
    ensures multiset(s)[x] <= 1
  {
    if s != [] {
      var init := s[..|s| - 1];
      assert s == init + [s[|s| - 1]];
      assert NoDuplicates(init);
      NoDuplicatesCount(init, x);
      if x == s[|s| - 1] {
        assert x !in init;
      }
    }
  }

  lemma DuplicateCount<T>(s: seq<T>, i: nat, j: nat)
    requires i < j < |s| && s[i] == s[j]
    ensures multiset(s)[s[i]] >= 2
  {
    assert s == s[..j] + s[j..];
    assert s[i] in s[..j];
    assert s[j] in s[j..];
  }

  /** A rearrangement of a duplicate-free sequence is duplicate-free. */
  lemma NoDuplicatesPermutation<T>(a: seq<T>, b: seq<T>)
    requires multiset(a) == multiset(b) && NoDuplicates(a)
    ensures NoDuplicates(b)
  {
    forall i, j | 0 <= i < j < |b|
      ensures b[i] != b[j]
    {
      if b[i] == b[j] {
        DuplicateCount(b, i, j);
        NoDuplicatesCount(a, b[i]);
      }
    }
  }
}
