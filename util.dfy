/** `src/util.ts`: comparing two lists of names without regard to order. */
module Util {
  /** The lists differ in length, or one has an element the other lacks. */
  predicate Mismatch(aa: seq<string>, bb: seq<string>) {
    |aa| != |bb| || (exists a :: a in aa && a !in bb) || (exists b :: b in bb && b !in aa)
  }

  /** `arrayMismatch`: the length check, then a membership scan of each list in turn. */
  method ArrayMismatch(aa: seq<string>, bb: seq<string>) returns (r: bool)
    ensures r == Mismatch(aa, bb)
  {
    if |aa| != |bb| {
      return true;
    }
    var i := 0;
    while i < |aa|
      invariant 0 <= i <= |aa|
      invariant forall j :: 0 <= j < i ==> aa[j] in bb
    {
      if aa[i] !in bb {
        return true;
      }
      i := i + 1;
    }
    i := 0;
    while i < |bb|
      invariant 0 <= i <= |bb|
      invariant forall j :: 0 <= j < i ==> bb[j] in aa
    {
      if bb[i] !in aa {
        return true;
      }
      i := i + 1;
    }
    return false;
  }

  /** No mismatch exactly when the lengths agree and the two lists hold the same
      elements. */
  lemma NoMismatchIff(aa: seq<string>, bb: seq<string>)
    ensures !Mismatch(aa, bb) <==> |aa| == |bb| && Elements(aa) == Elements(bb)
  {
    if |aa| == |bb| && Elements(aa) == Elements(bb) {
      forall a | a in aa ensures a in bb {
        assert a in Elements(aa);
      }
      forall b | b in bb ensures b in aa {
        assert b in Elements(bb);
      }
    }
  }

  function Elements(xs: seq<string>): (r: set<string>)
    ensures forall x :: x in r <==> x in xs
  {
    set x | x in xs
  }

  lemma MismatchSymmetric(aa: seq<string>, bb: seq<string>)
    ensures Mismatch(aa, bb) == Mismatch(bb, aa)
  {
  }

  lemma NoMismatchWithSelf(aa: seq<string>)
    ensures !Mismatch(aa, aa)
  {
  }

  /** A permutation is never a mismatch. */
  lemma PermutationNoMismatch(aa: seq<string>, bb: seq<string>)
    requires multiset(aa) == multiset(bb)
    ensures !Mismatch(aa, bb)
  {
    assert |aa| == |multiset(aa)| == |multiset(bb)| == |bb|;
    forall a | a in aa ensures a in bb {
      assert a in multiset(aa);
    }
    forall b | b in bb ensures b in aa {
      assert b in multiset(bb);
    }
  }

  /** The comparison ignores how often an element occurs: lists of the same length
      with the same elements in different numbers are not a mismatch. */
  lemma MultiplicityIgnored(x: string, y: string)
    requires x != y
    ensures !Mismatch([x, x, y], [x, y, y])
    ensures multiset([x, x, y]) != multiset([x, y, y])
  {
    assert multiset([x, x, y])[x] == 2;
    assert multiset([x, y, y])[x] == 1;
  }
}
