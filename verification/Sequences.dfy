/** Facts about sequences and multisets shared by the other modules. */
module Sequences {

  function Without<T>(s: seq<T>, j: nat): (r: seq<T>)
    requires j < |s|
    ensures |r| == |s| - 1
  {
    s[..j] + s[j + 1..]
  }

  lemma WithoutMultiset<T>(s: seq<T>, j: nat)
    requires j < |s|
    ensures multiset(Without(s, j)) == multiset(s) - multiset{s[j]}
  {
    assert s == s[..j] + [s[j]] + s[j + 1..];
  }

  lemma TailMultiset<T>(s: seq<T>)
    requires s != []
    ensures multiset(s[1..]) == multiset(s) - multiset{s[0]}
  {
    assert s == [s[0]] + s[1..];
  }

  /** A permutation of t has an element of t at its head and permutes the others. */
  lemma PermutationHead<T>(s: seq<T>, t: seq<T>) returns (j: nat)
    requires s != [] && multiset(s) == multiset(t)
    ensures j < |t| && t[j] == s[0]
    ensures multiset(s[1..]) == multiset(Without(t, j))
  {
    assert s[0] in multiset(t);
    j :| 0 <= j < |t| && t[j] == s[0];
    TailMultiset(s);
    WithoutMultiset(t, j);
  }

  function SumBy<T>(f: T -> int, s: seq<T>): int {
    if s == [] then 0 else f(s[0]) + SumBy(f, s[1..])
  }

  lemma {:induction false} SumByConcat<T>(f: T -> int, s: seq<T>, t: seq<T>)
    ensures SumBy(f, s + t) == SumBy(f, s) + SumBy(f, t)
  {
    if s == [] {
      assert s + t == t;
    } else {
      assert (s + t)[1..] == s[1..] + t;
      SumByConcat(f, s[1..], t);
    }
  }

  lemma SumByWithout<T>(f: T -> int, s: seq<T>, j: nat)
    requires j < |s|
    ensures SumBy(f, s) == f(s[j]) + SumBy(f, Without(s, j))
  {
    hide SumBy;
    var rest := s[j + 1..];
    SumByConcat(f, s[..j], rest);
    SumByConcat(f, s[..j], [s[j]] + rest);
    SumByCons(f, s[j], rest);
    assert s == s[..j] + ([s[j]] + rest) && Without(s, j) == s[..j] + rest;
  }

  lemma SumByCons<T>(f: T -> int, x: T, s: seq<T>)
    ensures SumBy(f, [x] + s) == f(x) + SumBy(f, s)
  {
    assert ([x] + s)[1..] == s;
  }

  lemma {:induction false} SumByPermutation<T>(f: T -> int, s: seq<T>, t: seq<T>)
    requires multiset(s) == multiset(t)
    ensures SumBy(f, s) == SumBy(f, t)
  {
    if s == [] {
      assert |multiset(t)| == |t|;
    } else {
      var j := PermutationHead(s, t);
      SumByWithout(f, t, j);
      SumByPermutation(f, s[1..], Without(t, j));
    }
  }

  ghost predicate Pairwise<T(!new)>(p: (T, T) -> bool, s: seq<T>) {
    forall i, j :: 0 <= i < |s| && 0 <= j < |s| && i != j ==> p(s[i], s[j])
  }

  lemma PairwiseWithout<T(!new)>(p: (T, T) -> bool, s: seq<T>, k: nat)
    requires k < |s| && Pairwise(p, s)
    ensures Pairwise(p, Without(s, k))
    ensures forall x :: x in Without(s, k) ==> p(s[k], x) && p(x, s[k])
  {
    var r := Without(s, k);
    assert forall i :: 0 <= i < |r| ==> r[i] == if i < k then s[i] else s[i + 1];
  }

  /** A relation between any two different positions survives reordering. */
  lemma {:induction false} PairwisePermutation<T(!new)>(p: (T, T) -> bool, s: seq<T>, t: seq<T>)
    requires multiset(s) == multiset(t) && Pairwise(p, t)
    ensures Pairwise(p, s)
  {
    if s != [] {
      var k := PermutationHead(s, t);
      PairwiseWithout(p, t, k);
      PairwisePermutation(p, s[1..], Without(t, k));
      forall j | 0 < j < |s| ensures p(s[0], s[j]) && p(s[j], s[0]) {
        assert s[1..][j - 1] in multiset(s[1..]);
        assert s[j] in multiset(Without(t, k));
      }
      forall i, j | 0 <= i < |s| && 0 <= j < |s| && i != j ensures p(s[i], s[j]) {
        if i > 0 && j > 0 {
          assert s[i] == s[1..][i - 1] && s[j] == s[1..][j - 1];
        }
      }
    }
  }

  ghost predicate Increasing(s: seq<int>) {
    forall i, j :: 0 <= i < j < |s| ==> s[i] < s[j]
  }

  function Flatten<T>(ss: seq<seq<T>>): seq<T> {
    if ss == [] then [] else ss[0] + Flatten(ss[1..])
  }

  lemma {:induction false} FlattenSnoc<T>(ss: seq<seq<T>>, s: seq<T>)
    ensures Flatten(ss + [s]) == Flatten(ss) + s
  {
    if ss == [] {
      assert ss + [s] == [s] && [s][1..] == [];
    } else {
      assert (ss + [s])[1..] == ss[1..] + [s];
      FlattenSnoc(ss[1..], s);
    }
  }

  lemma {:induction false} FlattenConcat<T>(a: seq<seq<T>>, b: seq<seq<T>>)
    ensures Flatten(a + b) == Flatten(a) + Flatten(b)
  {
    if a == [] {
      assert a + b == b;
    } else {
      assert (a + b)[1..] == a[1..] + b;
      FlattenConcat(a[1..], b);
    }
  }

  ghost predicate Distinct<T>(s: seq<T>) {
    forall i, j :: 0 <= i < j < |s| ==> s[i] != s[j]
  }

  /** Insertion into an ordered set. */
  function Insert(s: seq<int>, x: int): (r: seq<int>)
    requires Increasing(s)
    ensures Increasing(r) && (forall n: int :: n in r <==> n in s || n == x)
    ensures r != [] && (r[0] == x || (s != [] && r[0] == s[0]))
  {
    if s == [] || x < s[0] then [x] + s
    else if x == s[0] then s
    else
      var r := Insert(s[1..], x);
      assert forall n: int :: n in s <==> n == s[0] || n in s[1..];
      [s[0]] + r
  }
}
