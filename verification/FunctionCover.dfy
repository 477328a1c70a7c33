/** Finding the functions that cover the sampled addresses: the loop over addrvec inside
    getFunctionSyms (core/src/BFDSymbols.cpp). */
module FunctionCover {
  import opened Extents
  import opened Sequences

  ghost predicate CoveredBy(functions: seq<Interval>, a: Word) {
    exists k: nat :: k < |functions| && InInterval(a, functions[k])
  }

  /** Function k has a sampled address that no earlier function has. */
  ghost predicate Needed(samples: seq<Word>, functions: seq<Interval>, k: nat)
    requires k < |functions|
  {
    exists a: Word :: a in samples && InInterval(a, functions[k]) && !CoveredBy(functions[..k], a)
  }

  /** f has a sampled address that these functions do not have. */
  ghost predicate Wanted(samples: seq<Word>, functions: seq<Interval>, f: Interval) {
    exists a: Word :: a in samples && InInterval(a, f) && !CoveredBy(functions, a)
  }

  /** In order, the candidates with a sampled address that no earlier candidate has. */
  ghost function FirstOf(samples: seq<Word>, candidates: seq<Interval>): seq<Interval> {
    if candidates == [] then []
    else
      var front, f := candidates[..|candidates| - 1], candidates[|candidates| - 1];
      FirstOf(samples, front) + if Wanted(samples, front, f) then [f] else []
  }

  lemma WantedFor(samples: seq<Word>, functions: seq<Interval>, f: Interval, a: Word)
    requires a in samples && InInterval(a, f) && !CoveredBy(functions, a)
    ensures Wanted(samples, functions, f)
  {
  }

  lemma NotWanted(samples: seq<Word>, functions: seq<Interval>, f: Interval)
    requires forall a: Word :: a in samples && InInterval(a, f) ==> CoveredBy(functions, a)
    ensures !Wanted(samples, functions, f)
  {
  }

  lemma SameWanted(samples: seq<Word>, some: seq<Interval>, all: seq<Interval>, f: Interval)
    requires forall a: Word :: a in samples ==> (CoveredBy(some, a) <==> CoveredBy(all, a))
    ensures Wanted(samples, some, f) <==> Wanted(samples, all, f)
  {
    hide CoveredBy;
  }

  /** Once every sample is covered no candidate is wanted any more. */
  lemma {:induction false} NothingMore(samples: seq<Word>, candidates: seq<Interval>, n: nat)
    requires n <= |candidates| && forall a: Word :: a in samples ==> CoveredBy(candidates[..n], a)
    ensures FirstOf(samples, candidates) == FirstOf(samples, candidates[..n])
  {
    if n < |candidates| {
      var front := candidates[..|candidates| - 1];
      assert front[..n] == candidates[..n];
      NothingMore(samples, front, n);
      MoreCover(candidates[..n], front);
      NotWanted(samples, front, candidates[|candidates| - 1]);
    } else {
      assert candidates[..n] == candidates;
    }
  }

  /** Addresses once taken out are covered; every function was needed; every address is counted. */
  ghost predicate Search(samples: seq<Word>, addrvec: seq<Word>, functions: seq<Interval>, foundpcs: nat) {
    && Distinct(addrvec)
    && (forall a: Word :: a in addrvec ==> a in samples)
    && (forall a: Word :: a in samples && a !in addrvec ==> CoveredBy(functions, a))
    && (forall k: nat :: k < |functions| ==> Needed(samples, functions, k))
    && foundpcs + |addrvec| == |samples|
  }

  lemma EraseFacts(s: seq<Word>, i: nat)
    requires Distinct(s) && i < |s|
    ensures Distinct(Without(s, i)) && |Without(s, i)| == |s| - 1
    ensures forall a: Word :: a in Without(s, i) <==> a in s && a != s[i]
    ensures Without(s, i)[..i] == s[..i]
  {
    var r := Without(s, i);
    ErasedAt(s, i);
    hide Without;
    forall a: Word
      ensures a in r <==> a in s && a != s[i]
    {
      if a in s && a != s[i] {
        var k :| 0 <= k < |s| && s[k] == a;
        assert r[if k < i then k else k - 1] == a;
      }
      if a in r {
        var k :| 0 <= k < |r| && r[k] == a;
        assert s[if k < i then k else k + 1] == a;
      }
    }
  }

  lemma ErasedAt(s: seq<Word>, i: nat)
    requires i < |s|
    ensures var r := Without(s, i);
            |r| == |s| - 1 && r[..i] == s[..i] && forall k :: 0 <= k < |r| ==> r[k] == if k < i then s[k] else s[k + 1]
  {
  }

  lemma CoverGrows(functions: seq<Interval>, f: Interval, a: Word)
    ensures CoveredBy(functions + [f], a) <==> CoveredBy(functions, a) || InInterval(a, f)
  {
    var more := functions + [f];
    if CoveredBy(functions, a) {
      var k: nat :| k < |functions| && InInterval(a, functions[k]);
      assert more[k] == functions[k];
    }
    assert more[|functions|] == f;
  }

  lemma SearchErase(samples: seq<Word>, addrvec: seq<Word>, functions: seq<Interval>, foundpcs: nat, i: nat)
    requires Search(samples, addrvec, functions, foundpcs) && i < |addrvec| && CoveredBy(functions, addrvec[i])
    ensures Search(samples, Without(addrvec, i), functions, foundpcs + 1)
  {
    hide CoveredBy, Needed;
    EraseFacts(addrvec, i);
  }

  lemma SearchPush(samples: seq<Word>, addrvec: seq<Word>, functions: seq<Interval>, foundpcs: nat, f: Interval,
                   a: Word)
    requires Search(samples, addrvec, functions, foundpcs) && a in addrvec && InInterval(a, f)
              && !CoveredBy(functions, a)
    ensures Search(samples, addrvec, functions + [f], foundpcs)
  {
    hide CoveredBy;
    var more := functions + [f];
    forall b: Word
      ensures CoveredBy(more, b) <==> CoveredBy(functions, b) || InInterval(b, f)
    {
      CoverGrows(functions, f, b);
    }
    forall k: nat | k < |more|
      ensures Needed(samples, more, k)
    {
      assert more[..k] == if k < |functions| then functions[..k] else functions;
      if k < |functions| {
        assert Needed(samples, functions, k);
      }
    }
  }

  class FunctionSearch {
    ghost const samples: seq<Word>
    var addrvec: seq<Word>
    var functionvec: seq<Interval>
    var foundpcs: nat

    ghost predicate Valid()
      reads this
    {
      Search(samples, addrvec, functionvec, foundpcs)
    }

    constructor (addresses: seq<Word>)
      requires Distinct(addresses)
      ensures Valid() && samples == addresses && functionvec == []
    {
      samples, addrvec, functionvec, foundpcs := addresses, addresses, [], 0;
    }

    /** Is the address in a function found before? */
    method AlreadyFound(a: Word) returns (found: bool)
      ensures found <==> CoveredBy(functionvec, a)
    {
      for k := 0 to |functionvec|
        invariant forall j :: 0 <= j < k ==> !InInterval(a, functionvec[j])
      {
        if InInterval(a, functionvec[k]) {
          return true;
        }
      }
      return false;
    }

    /** One candidate against all addresses left, erasing as it goes. */
    method Consider(frange: Interval)
      requires Valid()
      modifies this
      ensures Valid()
      ensures functionvec == old(functionvec) + if Wanted(samples, old(functionvec), frange) then [frange] else []
      ensures forall a: Word :: a in samples && InInterval(a, frange) ==> CoveredBy(functionvec, a)
    {
      hide Search, CoveredBy, Wanted;
      var i := 0;
      while i < |addrvec|
        invariant 0 <= i <= |addrvec| && Valid() && functionvec == old(functionvec)
        invariant forall k :: 0 <= k < i ==> !InInterval(addrvec[k], frange)
        decreases |addrvec| - i
      {
        var a := addrvec[i];
        Members(samples, addrvec, functionvec, foundpcs);
        EraseFacts(addrvec, i);
        var found := AlreadyFound(a);
        if found {
          SearchErase(samples, addrvec, functionvec, foundpcs, i);
          foundpcs := foundpcs + 1;
          assert forall k :: 0 <= k < i ==> Without(addrvec, i)[k] == addrvec[k];
          addrvec := Without(addrvec, i);
          i := i - 1;
        } else if InInterval(a, frange) {
          WantedFor(samples, functionvec, frange, a);
          SearchPush(samples, addrvec, functionvec, foundpcs, frange, a);
          functionvec := functionvec + [frange];
          Pushed(frange, old(functionvec), functionvec);
          SearchErase(samples, addrvec, functionvec, foundpcs, i);
          foundpcs := foundpcs + 1;
          addrvec := Without(addrvec, i);
          return;
        }
        i := i + 1;
      }
      Members(samples, addrvec, functionvec, foundpcs);
      NotWanted(samples, functionvec, frange);
    }

    /** The candidates in order, until no address is left. */
    method GetFunctionSyms(candidates: seq<Interval>)
      requires Valid() && functionvec == []
      modifies this
      ensures Valid() && functionvec == FirstOf(samples, candidates)
      ensures forall f :: f in functionvec ==> f in candidates
      ensures forall a: Word :: a in samples ==> (CoveredBy(functionvec, a) <==> CoveredBy(candidates, a))
    {
      hide Search, CoveredBy, Wanted;
      NothingCovered();
      for n := 0 to |candidates|
        invariant Valid() && functionvec == FirstOf(samples, candidates[..n])
        invariant forall f :: f in functionvec ==> f in candidates[..n]
        invariant forall a: Word :: a in samples && CoveredBy(candidates[..n], a) ==> CoveredBy(functionvec, a)
      {
        ghost var before := functionvec;
        Consider(candidates[n]);
        assert before + [] == before;
        assert candidates[..n + 1] == candidates[..n] + [candidates[n]];
        Pushed(candidates[n], before, before + [candidates[n]]);
        Pushed(candidates[n], candidates[..n], candidates[..n + 1]);
        MoreCover(before, candidates[..n]);
        SameWanted(samples, before, candidates[..n], candidates[n]);
        if addrvec == [] {
          Members(samples, addrvec, functionvec, foundpcs);
          MoreCover(functionvec, candidates[..n + 1]);
          MoreCover(functionvec, candidates);
          NothingMore(samples, candidates, n + 1);
          return;
        }
      }
      assert candidates[..|candidates|] == candidates;
      MoreCover(functionvec, candidates);
    }
  }

  lemma NothingCovered()
    ensures forall a: Word :: !CoveredBy([], a)
  {
  }

  lemma MoreCover(few: seq<Interval>, many: seq<Interval>)
    requires forall f :: f in few ==> f in many
    ensures forall a: Word :: CoveredBy(few, a) ==> CoveredBy(many, a)
  {
    forall a: Word | CoveredBy(few, a)
      ensures CoveredBy(many, a)
    {
      var k: nat :| k < |few| && InInterval(a, few[k]);
      assert few[k] in few && few[k] in many;
      var j :| 0 <= j < |many| && many[j] == few[k];
    }
  }

  lemma Members(samples: seq<Word>, addrvec: seq<Word>, functions: seq<Interval>, foundpcs: nat)
    requires Search(samples, addrvec, functions, foundpcs)
    ensures Distinct(addrvec) && forall a: Word :: a in samples && a !in addrvec ==> CoveredBy(functions, a)
    ensures forall a: Word :: a in addrvec ==> a in samples
  {
  }

  lemma Pushed(f: Interval, functions: seq<Interval>, more: seq<Interval>)
    requires more == functions + [f]
    ensures forall a: Word :: CoveredBy(more, a) <==> CoveredBy(functions, a) || InInterval(a, f)
  {
    forall a: Word
      ensures CoveredBy(more, a) <==> CoveredBy(functions, a) || InInterval(a, f)
    {
      CoverGrows(functions, f, a);
    }
  }
}
