/** Sums and multiset unions over the modules of a chain, with the effect of replacing one module. */
module Sums {

  /** Adds up `f` over `xs`; `f` also receives the distance of the element from the end of `xs`
      (`|xs|` for the first element, 1 for the last). */
  ghost function Sum<T>(f: (int, T) -> nat, xs: seq<T>): nat {
    if xs == [] then 0 else f(|xs|, xs[0]) + Sum(f, xs[1..])
  }

  lemma {:induction false} SumUpdate<T>(f: (int, T) -> nat, xs: seq<T>, i: nat, x: T)
    requires i < |xs|
    ensures Sum(f, xs[i := x]) + f(|xs| - i, xs[i]) == Sum(f, xs) + f(|xs| - i, x)
  {
    if i == 0 {
      assert xs[0 := x][1..] == xs[1..];
    } else {
      assert xs[i := x][1..] == xs[1..][i - 1 := x];
      SumUpdate(f, xs[1..], i - 1, x);
    }
  }

  lemma {:induction false} SumAtLeast<T>(f: (int, T) -> nat, xs: seq<T>, i: nat)
    requires i < |xs|
    ensures f(|xs| - i, xs[i]) <= Sum(f, xs)
  {
    if i != 0 {
      SumAtLeast(f, xs[1..], i - 1);
    }
  }

  lemma {:induction false} SumZero<T>(f: (int, T) -> nat, xs: seq<T>)
    requires forall i :: 0 <= i < |xs| ==> f(|xs| - i, xs[i]) == 0
    ensures Sum(f, xs) == 0
  {
    if xs != [] {
      var rest := xs[1..];
      assert f(|xs|, xs[0]) == 0 by { assert f(|xs| - 0, xs[0]) == 0; }
      forall i | 0 <= i < |rest| ensures f(|rest| - i, rest[i]) == 0 {
        assert f(|xs| - (i + 1), xs[i + 1]) == 0;
      }
      SumZero(f, rest);
    }
  }

  /** If no element weighs more than 1, the sum is at most the length; it is less when some element weighs 0. */
  lemma {:induction false} SumAtMostLength<T>(f: (int, T) -> nat, xs: seq<T>)
    requires forall i :: 0 <= i < |xs| ==> f(|xs| - i, xs[i]) <= 1
    ensures Sum(f, xs) <= |xs|
    ensures (exists i :: 0 <= i < |xs| && f(|xs| - i, xs[i]) == 0) ==> Sum(f, xs) < |xs|
  {
    if xs != [] {
      var rest := xs[1..];
      assert f(|xs|, xs[0]) <= 1 by { assert f(|xs| - 0, xs[0]) <= 1; }
      forall i | 0 <= i < |rest| ensures f(|rest| - i, rest[i]) <= 1 {
        assert f(|xs| - (i + 1), xs[i + 1]) <= 1;
      }
      SumAtMostLength(f, rest);
      if i :| 0 <= i < |xs| && f(|xs| - i, xs[i]) == 0 {
        if i != 0 {
          assert f(|rest| - (i - 1), rest[i - 1]) == 0;
        }
      }
    }
  }

  /** The multiset union of `f` over `xs`. */
  ghost function Union<T>(f: T -> multiset<int>, xs: seq<T>): multiset<int> {
    if xs == [] then multiset{} else f(xs[0]) + Union(f, xs[1..])
  }

  lemma {:induction false} UnionUpdate<T>(f: T -> multiset<int>, xs: seq<T>, i: nat, x: T)
    requires i < |xs|
    ensures Union(f, xs[i := x]) + f(xs[i]) == Union(f, xs) + f(x)
  {
    if i == 0 {
      assert xs[0 := x][1..] == xs[1..];
    } else {
      var rest, ys := xs[1..], xs[i := x];
      assert ys[1..] == rest[i - 1 := x] && ys[0] == xs[0];
      UnionUpdate(f, rest, i - 1, x);
      assert Union(f, ys) + f(xs[i]) == f(xs[0]) + (Union(f, rest[i - 1 := x]) + f(rest[i - 1]));
      assert Union(f, xs) + f(x) == f(xs[0]) + (Union(f, rest) + f(x));
    }
  }

  lemma {:induction false} UnionHas<T>(f: T -> multiset<int>, xs: seq<T>, i: nat)
    requires i < |xs|
    ensures f(xs[i]) <= Union(f, xs)
  {
    if i != 0 {
      UnionHas(f, xs[1..], i - 1);
    }
  }

  lemma {:induction false} UnionHasBoth<T>(f: T -> multiset<int>, xs: seq<T>, i: nat, j: nat)
    requires i < j < |xs|
    ensures f(xs[i]) + f(xs[j]) <= Union(f, xs)
  {
    if i == 0 {
      UnionHas(f, xs[1..], j - 1);
    } else {
      UnionHasBoth(f, xs[1..], i - 1, j - 1);
    }
  }

  lemma {:induction false} UnionEmpty<T>(f: T -> multiset<int>, xs: seq<T>)
    requires forall i :: 0 <= i < |xs| ==> f(xs[i]) == multiset{}
    ensures Union(f, xs) == multiset{}
  {
    if xs != [] {
      assert forall i :: 0 <= i < |xs[1..]| ==> xs[1..][i] == xs[i + 1];
      UnionEmpty(f, xs[1..]);
    }
  }

  /** Two replacements whose contributions balance leave the union unchanged. */
  lemma Balance(before: multiset<int>, mid: multiset<int>, after: multiset<int>,
                a: multiset<int>, a': multiset<int>, b: multiset<int>, b': multiset<int>)
    requires mid + a == before + a' && after + b == mid + b' && a' + b' == a + b
    ensures after == before
  {
    forall x ensures after[x] == before[x] {
      assert (mid + a)[x] == (before + a')[x] && (after + b)[x] == (mid + b')[x] && (a' + b')[x] == (a + b)[x];
    }
  }

  /** A replacement that takes `x` out of the rest `q` and into the union, or the other way round, keeps the total. */
  lemma Transfer(before: multiset<int>, after: multiset<int>, a: multiset<int>, a': multiset<int>,
                 q: multiset<int>, q': multiset<int>)
    requires after + a == before + a' && a' + q' == a + q
    ensures q' + after == q + before
  {
    forall x ensures (q' + after)[x] == (q + before)[x] {
      assert (after + a)[x] == (before + a')[x] && (a' + q')[x] == (a + q)[x];
    }
  }
}
