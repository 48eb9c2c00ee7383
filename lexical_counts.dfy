/**
 * The per-sentence count table of the lexical-probability mappers, as a
 * specification: which `(anchor, partner)` keys a sentence pair contributes
 * and with what counts, and the conservation law that ties each anchor's
 * detail counts to its `/MARGINAL/` count.
 *
 * The table is direction-neutral: `anchors` are the tokens walked over (the
 * source words for target-given-source, the target words for
 * source-given-target) and `partners[i]` the tokens linked to position `i`.
 */
module LexicalCounts {
  import opened TableSums
  import opened Alignments

  /** A Hadoop `TextPair`: the anchor token and its partner token. */
  datatype TextPair = TextPair(fst: string, snd: string)

  const MARGINAL: string := "/MARGINAL/"
  const UNALIGNED: string := "/UNALIGNED/"

  type CountTable = map<TextPair, nat>

  /** `counts.put(k, counts.containsKey(k) ? counts.get(k) + n : n)`. */
  function Bump(t: CountTable, k: TextPair, n: nat): CountTable
  {
    t[k := Lookup(t, k) + n]
  }

  /** The inner loop: one count for `(anchor, p)` per listed partner `p`, in order. */
  function AddPartners(t: CountTable, anchor: string, ps: seq<string>): CountTable
    decreases |ps|
  {
    if ps == [] then t
    else Bump(AddPartners(t, anchor, ps[..|ps| - 1]), TextPair(anchor, ps[|ps| - 1]), 1)
  }

  /** The inner loop adds exactly the keys `(anchor, p)` of the listed partners. */
  lemma {:induction false} AddPartnersKeys(t: CountTable, anchor: string, ps: seq<string>)
    ensures AddPartners(t, anchor, ps).Keys == t.Keys + (set p | p in ps :: TextPair(anchor, p))
    decreases |ps|
  {
    if ps != [] {
      var n := |ps| - 1;
      AddPartnersKeys(t, anchor, ps[..n]);
      assert ps == ps[..n] + [ps[n]];
      assert (set p | p in ps :: TextPair(anchor, p))
          == (set p | p in ps[..n] :: TextPair(anchor, p)) + {TextPair(anchor, ps[n])};
    }
  }

  /** What one anchor position adds: its partners and its fan-out as the marginal, or one UNALIGNED and a marginal of 1. */
  function AddPosition(t: CountTable, anchor: string, ps: seq<string>): (r: CountTable)
    ensures TextPair(anchor, MARGINAL) in r
    ensures forall k :: k in t ==> k in r
    ensures forall k :: k in r && k !in t ==> k.fst == anchor
  {
    AddPartnersKeys(t, anchor, ps);
    if |ps| > 0 then Bump(AddPartners(t, anchor, ps), TextPair(anchor, MARGINAL), |ps|)
    else Bump(Bump(t, TextPair(anchor, UNALIGNED), 1), TextPair(anchor, MARGINAL), 1)
  }

  /** The table after the positions of `anchors`, starting from an empty table. */
  function Table(anchors: seq<string>, partners: seq<seq<string>>): (r: CountTable)
    requires |anchors| == |partners|
    ensures forall i :: 0 <= i < |anchors| ==> TextPair(anchors[i], MARGINAL) in r
    ensures forall k :: k in r ==> k.fst in anchors
    decreases |anchors|
  {
    if anchors == [] then map[]
    else
      var n := |anchors| - 1;
      assert forall i :: 0 <= i < n ==> anchors[..n][i] == anchors[i];
      assert forall w :: w in anchors[..n] ==> w in anchors;
      AddPosition(Table(anchors[..n], partners[..n]), anchors[n], partners[n])
  }

  // ----- the reference count: what each position contributes to a key -----

  /** What a position with partners `ps` adds to the key whose partner is `p`. */
  function Gain(ps: seq<string>, p: string): nat
  {
    if ps == [] then (if p == UNALIGNED || p == MARGINAL then 1 else 0)
    else if p == MARGINAL then |ps| + multiset(ps)[MARGINAL]
    else multiset(ps)[p]
  }

  /** The count of key `k`, summed position by position. */
  function Expected(anchors: seq<string>, partners: seq<seq<string>>, k: TextPair): nat
    requires |anchors| == |partners|
    decreases |anchors|
  {
    if anchors == [] then 0
    else
      var n := |anchors| - 1;
      Expected(anchors[..n], partners[..n], k) + (if anchors[n] == k.fst then Gain(partners[n], k.snd) else 0)
  }

  lemma {:induction false} AddPartnersLookup(t: CountTable, anchor: string, ps: seq<string>, k: TextPair)
    ensures Lookup(AddPartners(t, anchor, ps), k) == Lookup(t, k) + (if k.fst == anchor then multiset(ps)[k.snd] else 0)
    decreases |ps|
  {
    if ps != [] {
      var n := |ps| - 1;
      AddPartnersLookup(t, anchor, ps[..n], k);
      assert ps == ps[..n] + [ps[n]];
      assert multiset(ps) == multiset(ps[..n]) + multiset{ps[n]};
    }
  }

  /**
   * One position with partners `ps` raises every `(anchor, p)` by `Gain(ps, p)`
   * and leaves every other anchor's keys alone: an aligned position adds one per
   * link and its fan-out to the marginal, an unaligned one adds 1 to UNALIGNED
   * and 1 to the marginal.
   */
  lemma AddPositionLookup(t: CountTable, anchor: string, ps: seq<string>, k: TextPair)
    ensures Lookup(AddPosition(t, anchor, ps), k) == Lookup(t, k) + (if k.fst == anchor then Gain(ps, k.snd) else 0)
  {
    AddPartnersLookup(t, anchor, ps, k);
  }

  /** Every count in the table is the position-by-position reference count. */
  lemma {:induction false} TableLookup(anchors: seq<string>, partners: seq<seq<string>>, k: TextPair)
    requires |anchors| == |partners|
    ensures Lookup(Table(anchors, partners), k) == Expected(anchors, partners, k)
    decreases |anchors|
  {
    if anchors != [] {
      var n := |anchors| - 1;
      TableLookup(anchors[..n], partners[..n], k);
      AddPositionLookup(Table(anchors[..n], partners[..n]), anchors[n], partners[n], k);
    }
  }

  // ----- positivity: the table holds only keys that were actually counted -----

  ghost predicate Positive(t: CountTable)
  {
    forall k :: k in t ==> t[k] >= 1
  }

  lemma {:induction false} AddPartnersPositive(t: CountTable, anchor: string, ps: seq<string>)
    requires Positive(t)
    ensures Positive(AddPartners(t, anchor, ps))
    decreases |ps|
  {
    if ps != [] {
      AddPartnersPositive(t, anchor, ps[..|ps| - 1]);
    }
  }

  lemma {:induction false} TablePositive(anchors: seq<string>, partners: seq<seq<string>>)
    requires |anchors| == |partners|
    ensures Positive(Table(anchors, partners))
    decreases |anchors|
  {
    if anchors != [] {
      var n := |anchors| - 1;
      TablePositive(anchors[..n], partners[..n]);
      AddPartnersPositive(Table(anchors[..n], partners[..n]), anchors[n], partners[n]);
    }
  }

  /** A key is in the table exactly when its reference count is positive, and its entry is that count. */
  lemma TableKeys(anchors: seq<string>, partners: seq<seq<string>>, k: TextPair)
    requires |anchors| == |partners|
    ensures k in Table(anchors, partners) <==> Expected(anchors, partners, k) > 0
    ensures k in Table(anchors, partners) ==> Table(anchors, partners)[k] == Expected(anchors, partners, k)
  {
    TableLookup(anchors, partners, k);
    TablePositive(anchors, partners);
  }

  // ----- conservation: detail counts sum to the marginal count -----

  /** The keys of anchor `w` other than its marginal. */
  ghost function DetailKeys(t: CountTable, w: string): set<TextPair>
  {
    set k | k in t && k.fst == w && k.snd != MARGINAL
  }

  ghost function DetailTotal(t: CountTable, w: string): nat
  {
    SumOver(t, DetailKeys(t, w))
  }

  ghost function MarginalOf(t: CountTable, w: string): nat
  {
    Lookup(t, TextPair(w, MARGINAL))
  }

  /** For every anchor, the sum of its non-marginal counts equals its marginal count. */
  ghost predicate Conserving(t: CountTable)
  {
    forall w :: DetailTotal(t, w) == MarginalOf(t, w)
  }

  /** Every key's anchor has a marginal entry of at least 1. */
  ghost predicate Anchored(t: CountTable)
  {
    forall k :: k in t ==> MarginalOf(t, k.fst) >= 1
  }

  /** Raising one key by `n` raises the detail total of its anchor by `n`, unless it is the marginal key. */
  lemma BumpDetailTotal(t: CountTable, k: TextPair, n: nat, w: string)
    ensures DetailTotal(Bump(t, k, n), w) == DetailTotal(t, w) + (if k.fst == w && k.snd != MARGINAL then n else 0)
  {
    var t' := Bump(t, k, n);
    var S, S' := DetailKeys(t, w), DetailKeys(t', w);
    if k.fst == w && k.snd != MARGINAL {
      assert S' == S + {k};
      SumOverRemove(t', S', k);
      assert S' - {k} == S - {k};
      SumOverAgree(t', t, S - {k});
      if k in S {
        SumOverRemove(t, S, k);
      } else {
        assert S - {k} == S;
      }
    } else {
      assert S' == S;
      SumOverAgree(t', t, S);
    }
  }

  lemma {:induction false} AddPartnersDetailTotal(t: CountTable, anchor: string, ps: seq<string>, w: string)
    requires MARGINAL !in ps
    ensures DetailTotal(AddPartners(t, anchor, ps), w) == DetailTotal(t, w) + (if w == anchor then |ps| else 0)
    decreases |ps|
  {
    if ps != [] {
      var n := |ps| - 1;
      assert ps[n] in ps;
      assert forall x :: x in ps[..n] ==> x in ps;
      AddPartnersDetailTotal(t, anchor, ps[..n], w);
      BumpDetailTotal(AddPartners(t, anchor, ps[..n]), TextPair(anchor, ps[n]), 1, w);
    }
  }

  /** A position adds as much to its anchor's detail total as to its marginal. */
  lemma AddPositionConserves(t: CountTable, anchor: string, ps: seq<string>)
    requires Conserving(t)
    requires MARGINAL !in ps
    ensures Conserving(AddPosition(t, anchor, ps))
  {
    var t' := AddPosition(t, anchor, ps);
    assert multiset(ps)[MARGINAL] == 0;
    forall w
      ensures DetailTotal(t', w) == MarginalOf(t', w)
    {
      AddPositionLookup(t, anchor, ps, TextPair(w, MARGINAL));
      if |ps| > 0 {
        AddPartnersDetailTotal(t, anchor, ps, w);
        BumpDetailTotal(AddPartners(t, anchor, ps), TextPair(anchor, MARGINAL), |ps|, w);
      } else {
        var t1 := Bump(t, TextPair(anchor, UNALIGNED), 1);
        BumpDetailTotal(t, TextPair(anchor, UNALIGNED), 1, w);
        BumpDetailTotal(t1, TextPair(anchor, MARGINAL), 1, w);
      }
    }
  }

  lemma AddPositionAnchored(t: CountTable, anchor: string, ps: seq<string>)
    requires Anchored(t) && Positive(t)
    ensures Anchored(AddPosition(t, anchor, ps)) && Positive(AddPosition(t, anchor, ps))
  {
    var t' := AddPosition(t, anchor, ps);
    AddPartnersPositive(t, anchor, ps);
    forall k | k in t'
      ensures MarginalOf(t', k.fst) >= 1
    {
      AddPositionLookup(t, anchor, ps, k);
      AddPositionLookup(t, anchor, ps, TextPair(k.fst, MARGINAL));
      if k.fst != anchor {
        assert k in t;
      }
    }
  }

  /** No partner token of any position spells the MARGINAL sentinel. */
  ghost predicate NoMarginalPartner(partners: seq<seq<string>>)
  {
    forall i :: 0 <= i < |partners| ==> MARGINAL !in partners[i]
  }

  /**
   * Conservation of a sentence's table: every anchor's detail counts sum to its
   * marginal count, and every anchor in the table has a marginal of at least 1.
   */
  lemma {:induction false} TableConserves(anchors: seq<string>, partners: seq<seq<string>>)
    requires |anchors| == |partners|
    requires NoMarginalPartner(partners)
    ensures Conserving(Table(anchors, partners))
    ensures Anchored(Table(anchors, partners))
    decreases |anchors|
  {
    TablePositive(anchors, partners);
    if anchors == [] {
      forall w ensures DetailTotal(map[], w) == 0 {
        assert DetailKeys(map[], w) == {};
      }
    } else {
      var n := |anchors| - 1;
      TableConserves(anchors[..n], partners[..n]);
      TablePositive(anchors[..n], partners[..n]);
      AddPositionConserves(Table(anchors[..n], partners[..n]), anchors[n], partners[n]);
      AddPositionAnchored(Table(anchors[..n], partners[..n]), anchors[n], partners[n]);
    }
  }

  /**
   * The sentinels are ordinary strings, so a partner token spelled "/MARGINAL/"
   * lands on the marginal key: one such link leaves the anchor a marginal of 2
   * and no detail count at all.
   */
  lemma MarginalTokenBreaksConservation()
    ensures Table(["le"], [[MARGINAL]]) == map[TextPair("le", MARGINAL) := 2]
    ensures !Conserving(Table(["le"], [[MARGINAL]]))
  {
    var k := TextPair("le", MARGINAL);
    var t := Table(["le"], [[MARGINAL]]);
    assert AddPartners(map[], "le", [MARGINAL]) == map[k := 1];
    assert t == AddPosition(map[], "le", [MARGINAL]);
    assert t == map[k := 2];
    assert DetailKeys(t, "le") == {};
    assert DetailTotal(t, "le") == 0;
    assert MarginalOf(t, "le") == 2;
  }

  /** Pointwise sums of conserving tables (the shuffle adding up sentence counts) conserve. */
  lemma MergeConserves(t1: CountTable, t2: CountTable)
    requires Conserving(t1) && Conserving(t2)
    ensures Conserving(Merge(t1, t2))
  {
    var m := Merge(t1, t2);
    forall w
      ensures DetailTotal(m, w) == MarginalOf(m, w)
    {
      var D, D1, D2 := DetailKeys(m, w), DetailKeys(t1, w), DetailKeys(t2, w);
      assert D == D1 + D2;
      assert MarginalOf(m, w) == MarginalOf(t1, w) + MarginalOf(t2, w);
      assert forall k :: k in D - D1 ==> k !in t1;
      assert forall k :: k in D - D2 ==> k !in t2;
      SumOverMerge(t1, t2, D);
      SumOverZeros(t1, D1, D - D1);
      assert D1 + (D - D1) == D;
      SumOverZeros(t2, D2, D - D2);
      assert D2 + (D - D2) == D;
    }
  }

  lemma MergeAnchored(t1: CountTable, t2: CountTable)
    requires Anchored(t1) && Anchored(t2)
    ensures Anchored(Merge(t1, t2))
  {
    var m := Merge(t1, t2);
    forall k | k in m
      ensures MarginalOf(m, k.fst) >= 1
    {
      assert Lookup(m, TextPair(k.fst, MARGINAL)) == MarginalOf(t1, k.fst) + MarginalOf(t2, k.fst);
    }
  }

  /** A conserving table of positive counts is anchored: each detail key's count is part of its anchor's marginal. */
  lemma ConservingAnchored(t: CountTable)
    requires Conserving(t) && Positive(t)
    ensures Anchored(t)
  {
    forall k | k in t
      ensures MarginalOf(t, k.fst) >= 1
    {
      if k.snd != MARGINAL {
        SumOverRemove(t, DetailKeys(t, k.fst), k);
        assert DetailTotal(t, k.fst) == MarginalOf(t, k.fst);
      }
    }
  }

  lemma MergePositive(t1: CountTable, t2: CountTable)
    requires Positive(t1) && Positive(t2)
    ensures Positive(Merge(t1, t2))
  {
    var m := Merge(t1, t2);
    forall k | k in m
      ensures m[k] >= 1
    {
      assert m[k] == Lookup(t1, k) + Lookup(t2, k);
    }
  }

  // ----- the two directions over an alignment -----

  /** The tokens at positions `idx`. */
  function TokensAt(tokens: seq<string>, idx: seq<nat>): (r: seq<string>)
    requires forall j :: 0 <= j < |idx| ==> idx[j] < |tokens|
    ensures |r| == |idx|
    ensures forall j :: 0 <= j < |idx| ==> r[j] == tokens[idx[j]]
  {
    seq(|idx|, j requires 0 <= j < |idx| => tokens[idx[j]])
  }

  /** Every link leaving a source position of the sentence lands on a target position of the sentence. */
  ghost predicate SourceLinksInRange(a: Alignment, sourceLength: nat, targetLength: nat)
  {
    forall l :: l in a && l.src < sourceLength ==> l.tgt < targetLength
  }

  /** For each source position `i`, the target words of `f2e[i]`. */
  function SourcePartners(target: seq<string>, a: Alignment, n: nat): (r: seq<seq<string>>)
    requires SourceLinksInRange(a, n, |target|)
    ensures |r| == n
    ensures forall i :: 0 <= i < n ==> r[i] == TokensAt(target, F2E(a, i))
  {
    seq(n, i requires 0 <= i < n => TokensAt(target, F2E(a, i)))
  }

  /** The table `TargetGivenSourceMap.map` builds for one sentence pair. */
  function TargetGivenSource(source: seq<string>, target: seq<string>, a: Alignment): (r: CountTable)
    requires SourceLinksInRange(a, |source|, |target|)
    ensures forall i :: 0 <= i < |source| ==> TextPair(source[i], MARGINAL) in r
    ensures forall k :: k in r ==> k.fst in source
  {
    Table(source, SourcePartners(target, a, |source|))
  }

  /** Every link arriving at a target position of the sentence leaves a source position of the sentence. */
  ghost predicate TargetLinksInRange(a: Alignment, sourceLength: nat, targetLength: nat)
  {
    forall l :: l in a && l.tgt < targetLength ==> l.src < sourceLength
  }

  /** The table `SourceGivenTargetMap.map` builds: the mirror image, target words as anchors. */
  function SourceGivenTarget(source: seq<string>, target: seq<string>, a: Alignment): (r: CountTable)
    requires TargetLinksInRange(a, |source|, |target|)
    ensures forall j :: 0 <= j < |target| ==> TextPair(target[j], MARGINAL) in r
    ensures forall k :: k in r ==> k.fst in target
  {
    InverseLinksInRange(a, |source|, |target|);
    TargetGivenSource(target, source, Inverse(a))
  }

  /** Target positions of a link list over the inverse alignment are the source positions `e2f[j]`. */
  lemma InverseLinksInRange(a: Alignment, sourceLength: nat, targetLength: nat)
    ensures SourceLinksInRange(Inverse(a), targetLength, sourceLength) <==> TargetLinksInRange(a, sourceLength, targetLength)
  {
    var b := Inverse(a);
    if TargetLinksInRange(a, sourceLength, targetLength) {
      forall l | l in b && l.src < targetLength
        ensures l.tgt < sourceLength
      {
        var k :| 0 <= k < |b| && b[k] == l;
        assert a[k] in a;
      }
    }
    if SourceLinksInRange(b, targetLength, sourceLength) {
      forall l | l in a && l.tgt < targetLength
        ensures l.src < sourceLength
      {
        var k :| 0 <= k < |a| && a[k] == l;
        assert b[k] in b;
      }
    }
  }

  /** The source-given-target partners, position by position, are the source words of `e2f[j]`. */
  lemma SourceGivenTargetPartners(source: seq<string>, target: seq<string>, a: Alignment, j: nat)
    requires TargetLinksInRange(a, |source|, |target|)
    requires j < |target|
    ensures SourceLinksInRange(Inverse(a), |target|, |source|)
    ensures forall k :: 0 <= k < |E2F(a, j)| ==> E2F(a, j)[k] < |source|
    ensures SourcePartners(source, Inverse(a), |target|)[j] == TokensAt(source, E2F(a, j))
  {
    InverseLinksInRange(a, |source|, |target|);
    E2FIsF2EOfInverse(a, j);
  }

  /** Both mapper tables conserve when no word of the partner sentence spells "/MARGINAL/". */
  lemma TargetGivenSourceConserves(source: seq<string>, target: seq<string>, a: Alignment)
    requires SourceLinksInRange(a, |source|, |target|)
    requires MARGINAL !in target
    ensures Conserving(TargetGivenSource(source, target, a))
    ensures Anchored(TargetGivenSource(source, target, a))
    ensures Positive(TargetGivenSource(source, target, a))
  {
    var ps := SourcePartners(target, a, |source|);
    assert NoMarginalPartner(ps);
    TableConserves(source, ps);
    TablePositive(source, ps);
  }

  /** The source-given-target table conserves when no source word spells "/MARGINAL/". */
  lemma SourceGivenTargetConserves(source: seq<string>, target: seq<string>, a: Alignment)
    requires TargetLinksInRange(a, |source|, |target|)
    requires MARGINAL !in source
    ensures Conserving(SourceGivenTarget(source, target, a))
    ensures Anchored(SourceGivenTarget(source, target, a))
    ensures Positive(SourceGivenTarget(source, target, a))
  {
    InverseLinksInRange(a, |source|, |target|);
    TargetGivenSourceConserves(target, source, Inverse(a));
  }
}
