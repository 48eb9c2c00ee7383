/**
 * Counting tables are maps from keys to natural counts, with an absent key
 * read as 0. This module sums such a table over a finite set of keys, over
 * a list of keys, and proves the facts the lexical-probability proofs need.
 */
module TableSums {

  /** `counts.get(k)` with an absent key read as 0. */
  function Lookup<K>(m: map<K, nat>, k: K): nat
  {
    if k in m then m[k] else 0
  }

  /** The sum of the counts of the keys in `S`. */
  ghost function SumOver<K>(m: map<K, nat>, S: set<K>): nat
    decreases S
  {
    if S == {} then 0
    else
      var k :| k in S;
      Lookup(m, k) + SumOver(m, S - {k})
  }

  /** The sum does not depend on which key is taken out first. */
  lemma {:induction false} SumOverRemove<K>(m: map<K, nat>, S: set<K>, k: K)
    requires k in S
    ensures SumOver(m, S) == Lookup(m, k) + SumOver(m, S - {k})
    decreases S
  {
    var x :| x in S && SumOver(m, S) == Lookup(m, x) + SumOver(m, S - {x});
    if x != k {
      SumOverRemove(m, S - {x}, k);
      SumOverRemove(m, S - {k}, x);
      assert S - {x} - {k} == S - {k} - {x};
    }
  }

  /** Two tables that agree on `S` have the same sum over `S`. */
  lemma {:induction false} SumOverAgree<K>(m1: map<K, nat>, m2: map<K, nat>, S: set<K>)
    requires forall k :: k in S ==> Lookup(m1, k) == Lookup(m2, k)
    ensures SumOver(m1, S) == SumOver(m2, S)
    decreases S
  {
    if S != {} {
      var k :| k in S;
      SumOverRemove(m1, S, k);
      SumOverRemove(m2, S, k);
      SumOverAgree(m1, m2, S - {k});
    }
  }

  /** Keys whose count is 0 add nothing to a sum. */
  lemma {:induction false} SumOverZeros<K>(m: map<K, nat>, S: set<K>, Z: set<K>)
    requires forall k :: k in Z ==> Lookup(m, k) == 0
    ensures SumOver(m, S + Z) == SumOver(m, S)
    decreases Z
  {
    if Z == {} {
      assert S + Z == S;
    } else {
      var z :| z in Z;
      var S' := S + (Z - {z});
      SumOverZeros(m, S, Z - {z});
      assert SumOver(m, S') == SumOver(m, S);
      if z in S' {
        assert S + Z == S';
      } else {
        SumOverRemove(m, S + Z, z);
        assert (S + Z) - {z} == S';
        assert Lookup(m, z) == 0;
      }
    }
  }

  /** The pointwise sum of two tables. */
  function Merge<K(!new)>(m1: map<K, nat>, m2: map<K, nat>): (r: map<K, nat>)
    ensures r.Keys == m1.Keys + m2.Keys
    ensures forall k :: Lookup(r, k) == Lookup(m1, k) + Lookup(m2, k)
  {
    map k | k in m1.Keys + m2.Keys :: Lookup(m1, k) + Lookup(m2, k)
  }

  /** Summing is additive over pointwise sums of tables. */
  lemma {:induction false} SumOverMerge<K(!new)>(m1: map<K, nat>, m2: map<K, nat>, S: set<K>)
    ensures SumOver(Merge(m1, m2), S) == SumOver(m1, S) + SumOver(m2, S)
    decreases S
  {
    if S != {} {
      var k :| k in S;
      SumOverRemove(Merge(m1, m2), S, k);
      SumOverRemove(m1, S, k);
      SumOverRemove(m2, S, k);
      SumOverMerge(m1, m2, S - {k});
    }
  }

  /** The sum of a list of counts, taken left to right as the Java loops do. */
  function Sum(values: seq<nat>): nat
    decreases |values|
  {
    if values == [] then 0 else Sum(values[..|values| - 1]) + values[|values| - 1]
  }

  lemma {:induction false} SumAppend(a: seq<nat>, b: seq<nat>)
    ensures Sum(a + b) == Sum(a) + Sum(b)
    decreases |b|
  {
    if b == [] {
      assert a + b == a;
    } else {
      assert (a + b)[..|a + b| - 1] == a + b[..|b| - 1];
      assert (a + b)[|a + b| - 1] == b[|b| - 1];
      SumAppend(a, b[..|b| - 1]);
    }
  }

  /** The counts of the keys listed in `ks`, in order. */
  function LookupAll<K>(m: map<K, nat>, ks: seq<K>): (r: seq<nat>)
    ensures |r| == |ks|
    ensures forall j :: 0 <= j < |ks| ==> r[j] == Lookup(m, ks[j])
  {
    seq(|ks|, j requires 0 <= j < |ks| => Lookup(m, ks[j]))
  }

  /** Summing a table along a list of distinct keys is summing it over the set of those keys. */
  lemma {:induction false} ListingSum<K>(m: map<K, nat>, ks: seq<K>)
    requires forall i, j :: 0 <= i < j < |ks| ==> ks[i] != ks[j]
    ensures Sum(LookupAll(m, ks)) == SumOver(m, set k | k in ks)
    decreases |ks|
  {
    if ks != [] {
      var n := |ks| - 1;
      var front := ks[..n];
      ListingSum(m, front);
      assert LookupAll(m, ks)[..n] == LookupAll(m, front);
      var S := set k | k in ks;
      assert (set k | k in front) == S - {ks[n]} by {
        forall k | k in S - {ks[n]} ensures k in front {
          var j :| 0 <= j < |ks| && ks[j] == k;
          assert j != n;
        }
      }
      SumOverRemove(m, S, ks[n]);
    }
  }
}
