/** A JavaScript object used as a dictionary with string keys: a sequence of entries
    whose keys are distinct, kept in insertion order. Assigning to an existing key keeps
    its position; `delete` removes the entry; a key assigned after deletion goes last. */
module Assoc {
  import opened Wrappers

  type Dict<V> = seq<(string, V)>

  /** The set of keys (`Object.keys`, ignoring order). */
  function KeySet<V>(d: Dict<V>): (r: set<string>)
    ensures forall i :: 0 <= i < |d| ==> d[i].0 in r
    ensures forall k :: k in r ==> exists i :: 0 <= i < |d| && d[i].0 == k
  {
    if d == [] then {} else {d[0].0} + KeySet(d[1..])
  }

  predicate DistinctKeys<V>(d: Dict<V>) {
    d == [] || (d[0].0 !in KeySet(d[1..]) && DistinctKeys(d[1..]))
  }

  /** The keys in iteration order (`for (const k in d)`). */
  function Keys<V>(d: Dict<V>): (r: seq<string>)
    ensures |r| == |d| && forall i :: 0 <= i < |d| ==> r[i] == d[i].0
  {
    if d == [] then [] else [d[0].0] + Keys(d[1..])
  }

  /** `d[k]`, `undefined` being `None`. */
  function Get<V>(d: Dict<V>, k: string): (r: Option<V>)
    ensures r.Some? <==> k in KeySet(d)
  {
    if d == [] then None
    else if d[0].0 == k then Some(d[0].1)
    else Get(d[1..], k)
  }

  /** `d[k] = v`. */
  function Put<V>(d: Dict<V>, k: string, v: V): (r: Dict<V>)
    ensures DistinctKeys(d) ==> DistinctKeys(r)
    ensures KeySet(r) == KeySet(d) + {k}
    ensures Get(r, k) == Some(v)
    ensures forall k' :: k' != k ==> Get(r, k') == Get(d, k')
    ensures k !in KeySet(d) ==> r == d + [(k, v)]
    ensures k in KeySet(d) ==> |r| == |d| && Keys(r) == Keys(d)
  {
    PutKeys(d, k, v);
    PutGet(d, k, v);
    PutDistinct(d, k, v);
    Assign(d, k, v)
  }

  /** The assignment itself: the entry of `k` replaced in place, or a new last entry. */
  function Assign<V>(d: Dict<V>, k: string, v: V): Dict<V> {
    if d == [] then [(k, v)]
    else if d[0].0 == k then [(k, v)] + d[1..]
    else [d[0]] + Assign(d[1..], k, v)
  }

  lemma {:induction false} PutKeys<V>(d: Dict<V>, k: string, v: V)
    ensures KeySet(Assign(d, k, v)) == KeySet(d) + {k}
    ensures k !in KeySet(d) ==> Assign(d, k, v) == d + [(k, v)]
    ensures k in KeySet(d) ==> |Assign(d, k, v)| == |d| && Keys(Assign(d, k, v)) == Keys(d)
  {
    PutKeySet(d, k, v);
    if k in KeySet(d) {
      PutInPlace(d, k, v);
    } else {
      PutAppends(d, k, v);
    }
  }

  lemma {:induction false} PutKeySet<V>(d: Dict<V>, k: string, v: V)
    ensures KeySet(Assign(d, k, v)) == KeySet(d) + {k}
  {
    if d != [] && d[0].0 != k {
      PutKeySet(d[1..], k, v);
      assert Assign(d, k, v)[1..] == Assign(d[1..], k, v);
    } else if d != [] {
      assert Assign(d, k, v)[1..] == d[1..];
    }
  }

  lemma {:induction false} PutAppends<V>(d: Dict<V>, k: string, v: V)
    requires k !in KeySet(d)
    ensures Assign(d, k, v) == d + [(k, v)]
  {
    if d != [] {
      PutAppends(d[1..], k, v);
      assert d == [d[0]] + d[1..];
    }
  }

  lemma {:induction false} PutInPlace<V>(d: Dict<V>, k: string, v: V)
    requires k in KeySet(d)
    ensures |Assign(d, k, v)| == |d| && Keys(Assign(d, k, v)) == Keys(d)
  {
    var r := Assign(d, k, v);
    if d[0].0 == k {
      assert r[1..] == d[1..];
    } else {
      PutInPlace(d[1..], k, v);
      assert r[1..] == Assign(d[1..], k, v);
    }
  }

  lemma {:induction false} PutGet<V>(d: Dict<V>, k: string, v: V)
    ensures Get(Assign(d, k, v), k) == Some(v)
    ensures forall k' :: k' != k ==> Get(Assign(d, k, v), k') == Get(d, k')
  {
    if d != [] {
      var r := Assign(d, k, v);
      if d[0].0 == k {
        assert r[1..] == d[1..];
      } else {
        PutGet(d[1..], k, v);
        assert r[1..] == Assign(d[1..], k, v);
      }
    }
  }

  lemma {:induction false} PutDistinct<V>(d: Dict<V>, k: string, v: V)
    ensures DistinctKeys(d) ==> DistinctKeys(Assign(d, k, v))
  {
    if d != [] && DistinctKeys(d) {
      var r := Assign(d, k, v);
      if d[0].0 == k {
        assert r[1..] == d[1..];
      } else {
        PutDistinct(d[1..], k, v);
        PutKeys(d[1..], k, v);
        assert r[1..] == Assign(d[1..], k, v);
      }
    }
  }

  /** `delete d[k]`. */
  function Remove<V>(d: Dict<V>, k: string): (r: Dict<V>)
    ensures DistinctKeys(d) ==> DistinctKeys(r)
    ensures KeySet(r) == KeySet(d) - {k}
    ensures Get(r, k) == None
    ensures forall k' :: k' != k ==> Get(r, k') == Get(d, k')
    ensures |r| <= |d|
  {
    if d == [] then []
    else if d[0].0 == k then Remove(d[1..], k)
    else
      var r := [d[0]] + Remove(d[1..], k);
      assert r[1..] == Remove(d[1..], k);
      r
  }

  lemma RemoveAbsent<V>(d: Dict<V>, k: string)
    requires k !in KeySet(d)
    ensures Remove(d, k) == d
  {
    if d != [] {
      RemoveAbsent(d[1..], k);
    }
  }

  /** With distinct keys, `Get` finds the value stored at any position. */
  lemma {:induction false} GetAt<V>(d: Dict<V>, i: nat)
    requires DistinctKeys(d) && i < |d|
    ensures Get(d, d[i].0) == Some(d[i].1)
  {
    if i > 0 {
      assert d[1..][i - 1] == d[i];
      GetAt(d[1..], i - 1);
      assert d[i].0 in KeySet(d[1..]);
    }
  }

  /** Where `Get` found its value. */
  lemma {:induction false} GetWitness<V>(d: Dict<V>, k: string) returns (i: nat)
    requires Get(d, k).Some?
    ensures i < |d| && d[i] == (k, Get(d, k).value)
  {
    if d[0].0 == k {
      i := 0;
    } else {
      var j := GetWitness(d[1..], k);
      i := j + 1;
    }
  }

  /** Distinct keys, stated by positions. */
  lemma {:induction false} DistinctKeysIndex<V>(d: Dict<V>)
    ensures DistinctKeys(d) <==> forall i, j :: 0 <= i < j < |d| ==> d[i].0 != d[j].0
  {
    if d != [] {
      DistinctKeysIndex(d[1..]);
      if DistinctKeys(d) {
        forall i, j | 0 <= i < j < |d| ensures d[i].0 != d[j].0 {
          if i == 0 {
            assert d[j].0 == d[1..][j - 1].0;
          } else {
            assert d[i] == d[1..][i - 1] && d[j] == d[1..][j - 1];
          }
        }
      }
      if forall i, j :: 0 <= i < j < |d| ==> d[i].0 != d[j].0 {
        forall i, j | 0 <= i < j < |d[1..]| ensures d[1..][i].0 != d[1..][j].0 {
          assert d[1..][i] == d[i + 1] && d[1..][j] == d[j + 1];
        }
        forall j | 0 <= j < |d[1..]| ensures d[1..][j].0 != d[0].0 {
          assert d[1..][j] == d[j + 1];
        }
      }
    }
  }

  /** Dropping the last entry keeps keys distinct, and its key was not among the others. */
  lemma DistinctKeysFront<V>(d: Dict<V>)
    requires d != [] && DistinctKeys(d)
    ensures DistinctKeys(d[..|d| - 1])
    ensures d[|d| - 1].0 !in KeySet(d[..|d| - 1])
  {
    var front := d[..|d| - 1];
    DistinctKeysIndex(d);
    DistinctKeysIndex(front);
    forall i | 0 <= i < |front| ensures front[i].0 != d[|d| - 1].0 {
      assert front[i] == d[i];
    }
  }
}
