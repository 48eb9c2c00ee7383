/**
 * The lexical-probability reducer as a specification: a two-field state
 * machine (`current`, `marginalCount`) fed one `(key, values)` group at a
 * time, in sorted order. A marginal group for a new anchor sets the
 * denominator; each further group of the same anchor emits the ratio
 * `count / marginal`, of which the job writes `-ln`.
 *
 * The sort order the job relies on (anchors contiguous, each anchor's
 * marginal group first) is captured by building the group sequence from
 * `Block`s; the theorem at the end says that, for blocks describing a
 * conserving table, every emitted ratio lies in (0, 1], provided the first
 * anchor is not the empty word. The last section defines the reducer with
 * `current` initially unset, for which the bound needs no such condition.
 */
module LexicalReduce {
  import opened Wrappers
  import opened TableSums
  import opened LexicalCounts
  import opened Alignments

  /** One reduce call's input: a key and the values Hadoop groups under it. */
  datatype Group = Group(key: TextPair, values: seq<nat>)

  /** The probability `count / marginal`; the job writes `-ln` of it. */
  datatype Ratio = Ratio(count: nat, marginal: nat)

  datatype Emission = Emission(key: TextPair, ratio: Ratio)

  /** The reducer's fields. */
  datatype ReduceState = ReduceState(current: string, marginalCount: nat)

  /** `new Text()` is the empty string and an uninitialised `int` field is 0. */
  const Initial: ReduceState := ReduceState("", 0)

  /** One call of `reduce`: the next state and what it writes, if anything. */
  function Step(s: ReduceState, g: Group): (r: (ReduceState, Option<Emission>))
    ensures r.1.Some? <==> g.key.fst == s.current
    ensures r.1.Some? ==> r.0 == s && r.1.value == Emission(g.key, Ratio(Sum(g.values), s.marginalCount))
    ensures r.0 != s ==> g.key.snd == MARGINAL && r.0 == ReduceState(g.key.fst, Sum(g.values))
    ensures g.key.fst != s.current && g.key.snd == MARGINAL ==> r.0 == ReduceState(g.key.fst, Sum(g.values))
    ensures g.key.fst != s.current && g.key.snd != MARGINAL ==> r == (s, None)
  {
    if g.key.fst != s.current then
      if g.key.snd != MARGINAL then (s, None)
      else (ReduceState(g.key.fst, Sum(g.values)), None)
    else (s, Some(Emission(g.key, Ratio(Sum(g.values), s.marginalCount))))
  }

  /** Feeding groups one by one: the final state and all emissions, in order. */
  function Run(s: ReduceState, gs: seq<Group>): (r: (ReduceState, seq<Emission>))
    ensures |r.1| <= |gs|
    decreases |gs|
  {
    if gs == [] then (s, [])
    else
      var (s1, e) := Step(s, gs[0]);
      var (s2, es) := Run(s1, gs[1..]);
      (s2, (if e.Some? then [e.value] else []) + es)
  }

  /** The reducer only ever writes keys it was given. */
  lemma {:induction false} RunKeys(s: ReduceState, gs: seq<Group>)
    ensures forall e :: e in Run(s, gs).1 ==> exists g :: g in gs && g.key == e.key
    decreases |gs|
  {
    if gs != [] {
      RunKeys(Step(s, gs[0]).0, gs[1..]);
      assert forall g :: g in gs[1..] ==> g in gs;
    }
  }

  lemma {:induction false} RunAppend(s: ReduceState, a: seq<Group>, b: seq<Group>)
    ensures Run(s, a + b).0 == Run(Run(s, a).0, b).0
    ensures Run(s, a + b).1 == Run(s, a).1 + Run(Run(s, a).0, b).1
    decreases |a|
  {
    if a == [] {
      assert a + b == b;
    } else {
      assert (a + b)[1..] == a[1..] + b;
      RunAppend(Step(s, a[0]).0, a[1..], b);
    }
  }

  // ----- sorted input, block by block -----

  /** All groups of one anchor: the marginal group first, then its detail groups. */
  datatype Block = Block(anchor: string, marginal: seq<nat>, details: seq<Group>)

  function MarginalGroup(b: Block): Group
  {
    Group(TextPair(b.anchor, MARGINAL), b.marginal)
  }

  /** The group sequence the sort delivers. */
  function Flatten(bs: seq<Block>): seq<Group>
    decreases |bs|
  {
    if bs == [] then [] else [MarginalGroup(bs[0])] + bs[0].details + Flatten(bs[1..])
  }

  /** Detail groups belong to the block's anchor and are never its marginal. */
  ghost predicate DetailsOf(b: Block)
  {
    forall j :: 0 <= j < |b.details| ==>
      b.details[j].key.fst == b.anchor && b.details[j].key.snd != MARGINAL
  }

  /**
   * The order the sort comparator produces: neighbouring blocks have different
   * anchors. The last conjunct, that the first anchor differs from the
   * reducer's initial `current`, is an extra precondition the sort does not
   * guarantee: the empty word sorts first and equals the initial `current`.
   */
  ghost predicate SortedBlocks(bs: seq<Block>)
  {
    && (forall i :: 0 <= i < |bs| ==> DetailsOf(bs[i]))
    && (forall i :: 0 < i < |bs| ==> bs[i].anchor != bs[i - 1].anchor)
    && (bs != [] ==> bs[0].anchor != Initial.current)
  }

  function DetailEmissions(details: seq<Group>, marginal: nat): (r: seq<Emission>)
    ensures |r| == |details|
    ensures forall j :: 0 <= j < |details| ==>
      r[j] == Emission(details[j].key, Ratio(Sum(details[j].values), marginal))
  {
    seq(|details|, j requires 0 <= j < |details| =>
      Emission(details[j].key, Ratio(Sum(details[j].values), marginal)))
  }

  /** What the job should write: every detail key with its count over its block's marginal total. */
  function ExpectedEmissions(bs: seq<Block>): seq<Emission>
    decreases |bs|
  {
    if bs == [] then []
    else DetailEmissions(bs[0].details, Sum(bs[0].marginal)) + ExpectedEmissions(bs[1..])
  }

  lemma {:induction false} RunDetails(anchor: string, m: nat, details: seq<Group>)
    requires forall j :: 0 <= j < |details| ==> details[j].key.fst == anchor
    ensures Run(ReduceState(anchor, m), details) == (ReduceState(anchor, m), DetailEmissions(details, m))
    decreases |details|
  {
    if details != [] {
      RunDetails(anchor, m, details[1..]);
      assert DetailEmissions(details, m) == [DetailEmissions(details, m)[0]] + DetailEmissions(details[1..], m);
    }
  }

  /**
   * On sorted blocks the reducer emits exactly one ratio per detail group, with
   * that group's count over its anchor's marginal total, and nothing else.
   */
  lemma {:induction false} RunBlocks(s: ReduceState, bs: seq<Block>)
    requires forall i :: 0 <= i < |bs| ==> DetailsOf(bs[i])
    requires forall i :: 0 < i < |bs| ==> bs[i].anchor != bs[i - 1].anchor
    requires bs != [] ==> bs[0].anchor != s.current
    ensures Run(s, Flatten(bs)).1 == ExpectedEmissions(bs)
    decreases |bs|
  {
    if bs != [] {
      var b := bs[0];
      var head := [MarginalGroup(b)] + b.details;
      assert Flatten(bs) == head + Flatten(bs[1..]);
      RunAppend(s, head, Flatten(bs[1..]));
      RunBlock(s, b);
      RunBlocks(ReduceState(b.anchor, Sum(b.marginal)), bs[1..]);
    }
  }

  /** One block read from a `current` other than its anchor: the marginal sets the state, the details emit. */
  lemma RunBlock(s: ReduceState, b: Block)
    requires DetailsOf(b) && b.anchor != s.current
    ensures Run(s, [MarginalGroup(b)] + b.details)
         == (ReduceState(b.anchor, Sum(b.marginal)), DetailEmissions(b.details, Sum(b.marginal)))
  {
    var s1 := ReduceState(b.anchor, Sum(b.marginal));
    RunAppend(s, [MarginalGroup(b)], b.details);
    assert Run(s, [MarginalGroup(b)]) == (s1, []);
    RunDetails(b.anchor, Sum(b.marginal), b.details);
    assert [] + DetailEmissions(b.details, Sum(b.marginal)) == DetailEmissions(b.details, Sum(b.marginal));
  }

  // ----- conservation at block level, and the ratio bound -----

  function DetailSums(details: seq<Group>): (r: seq<nat>)
    ensures |r| == |details|
    ensures forall j :: 0 <= j < |details| ==> r[j] == Sum(details[j].values)
  {
    seq(|details|, j requires 0 <= j < |details| => Sum(details[j].values))
  }

  /** Every detail group counts at least 1, and together they count exactly the marginal. */
  ghost predicate BlockConserving(b: Block)
  {
    && (forall j :: 0 <= j < |b.details| ==> Sum(b.details[j].values) >= 1)
    && Sum(DetailSums(b.details)) == Sum(b.marginal)
  }

  lemma {:induction false} SumElementBound(s: seq<nat>, j: nat)
    requires j < |s|
    ensures s[j] <= Sum(s)
    decreases |s|
  {
    if j < |s| - 1 {
      SumElementBound(s[..|s| - 1], j);
    }
  }

  ghost predicate InUnitInterval(r: Ratio)
  {
    0 < r.count <= r.marginal
  }

  lemma {:induction false} ExpectedInUnitInterval(bs: seq<Block>)
    requires forall i :: 0 <= i < |bs| ==> BlockConserving(bs[i])
    ensures forall k :: 0 <= k < |ExpectedEmissions(bs)| ==> InUnitInterval(ExpectedEmissions(bs)[k].ratio)
    decreases |bs|
  {
    if bs != [] {
      var b := bs[0];
      ExpectedInUnitInterval(bs[1..]);
      var head := DetailEmissions(b.details, Sum(b.marginal));
      assert BlockConserving(b);
      forall j | 0 <= j < |head|
        ensures InUnitInterval(head[j].ratio)
      {
        SumElementBound(DetailSums(b.details), j);
      }
    }
  }

  /**
   * For sorted, conserving input every ratio the reducer emits lies in (0, 1],
   * so every `-ln` the job writes is at least 0.
   */
  lemma EmittedRatiosInUnitInterval(bs: seq<Block>)
    requires SortedBlocks(bs)
    requires forall i :: 0 <= i < |bs| ==> BlockConserving(bs[i])
    ensures forall e :: e in Run(Initial, Flatten(bs)).1 ==> InUnitInterval(e.ratio)
  {
    RunBlocks(Initial, bs);
    ExpectedInUnitInterval(bs);
  }

  /**
   * An empty first anchor equals the initial `current`: its marginal group is
   * taken for a detail group and divided by the uninitialised marginal count 0.
   */
  lemma EmptyFirstAnchorDividesByZero()
    ensures Run(Initial, Flatten([EmptyAnchorBlock])).1
         == [Emission(TextPair("", MARGINAL), Ratio(1, 0)), Emission(TextPair("", UNALIGNED), Ratio(1, 0))]
  {
    var gs := Flatten([EmptyAnchorBlock]);
    assert [EmptyAnchorBlock][1..] == [];
    assert gs == [MarginalGroup(EmptyAnchorBlock)] + EmptyAnchorBlock.details + Flatten([]);
    assert gs == [Group(TextPair("", MARGINAL), [1]), Group(TextPair("", UNALIGNED), [1])];
    assert Sum([1]) == 1;
    assert Run(Initial, gs[1..][1..]) == (Initial, []);
    assert Run(Initial, gs[1..]).1 == [Emission(TextPair("", UNALIGNED), Ratio(1, 0))];
  }

  /**
   * What one sentence pair with an empty anchor side contributes: an empty
   * target side under the installed `SourceGivenTargetMap`, or an empty source
   * side under `TargetGivenSourceMap`. Its one anchor is the empty word.
   */
  const EmptyAnchorBlock: Block := Block("", [1], [Group(TextPair("", UNALIGNED), [1])])

  /**
   * The installed mapper on `le` / an empty target side with no links: the
   * empty word is the one anchor, unaligned, and `EmptyAnchorBlock` is its block.
   */
  lemma EmptyTargetSideTable()
    ensures SourceGivenTarget(["le"], [""], []) == map[TextPair("", UNALIGNED) := 1, TextPair("", MARGINAL) := 1]
    ensures Describes(EmptyAnchorBlock, CorpusTable([SourceGivenTarget(["le"], [""], [])]))
  {
    var t := SourceGivenTarget(["le"], [""], []);
    var u := TextPair("", UNALIGNED);
    var m := TextPair("", MARGINAL);
    assert Inverse([]) == [];
    assert F2E([], 0) == [];
    assert SourcePartners(["le"], [], 1) == [[]];
    assert t == Table([""], [[]]);
    assert t == AddPosition(map[], "", []);
    assert t == map[u := 1, m := 1];
    SingleCorpusTable(t);
    assert DetailKeys(t, "") == {u};
    var ks := set j | 0 <= j < 1 :: EmptyAnchorBlock.details[j].key;
    assert EmptyAnchorBlock.details[0].key in ks;
    assert forall k :: k in ks ==> k == u;
  }

  // ----- from a conserving table to conserving blocks -----

  /**
   * Block `b` holds anchor `b.anchor`'s groups of the (merged) table `t`: the
   * marginal sums to the marginal entry, the detail keys are the anchor's other
   * keys, each once, and each detail group sums to its entry.
   */
  ghost predicate Describes(b: Block, t: CountTable)
  {
    && Sum(b.marginal) == MarginalOf(t, b.anchor)
    && (forall i, j :: 0 <= i < j < |b.details| ==> b.details[i].key != b.details[j].key)
    && (set j | 0 <= j < |b.details| :: b.details[j].key) == DetailKeys(t, b.anchor)
    && (forall j :: 0 <= j < |b.details| ==> Sum(b.details[j].values) == Lookup(t, b.details[j].key))
  }

  function Keys(details: seq<Group>): (r: seq<TextPair>)
    ensures |r| == |details|
    ensures forall j :: 0 <= j < |details| ==> r[j] == details[j].key
  {
    seq(|details|, j requires 0 <= j < |details| => details[j].key)
  }

  lemma DescribedBlockConserves(b: Block, t: CountTable)
    requires Describes(b, t)
    requires Conserving(t) && Positive(t)
    ensures BlockConserving(b)
    ensures DetailsOf(b)
  {
    var ks := Keys(b.details);
    assert (set k | k in ks) == DetailKeys(t, b.anchor) by {
      assert forall k :: k in ks <==> exists j :: 0 <= j < |b.details| && b.details[j].key == k;
    }
    ListingSum(t, ks);
    assert DetailSums(b.details) == LookupAll(t, ks);
    assert DetailTotal(t, b.anchor) == MarginalOf(t, b.anchor);
    forall j | 0 <= j < |b.details|
      ensures b.details[j].key in DetailKeys(t, b.anchor)
    {
      assert b.details[j].key in set i | 0 <= i < |b.details| :: b.details[i].key;
    }
  }

  /** The per-sentence tables of a corpus, added up key by key. */
  function CorpusTable(tables: seq<CountTable>): CountTable
    decreases |tables|
  {
    if tables == [] then map[] else Merge(CorpusTable(tables[..|tables| - 1]), tables[|tables| - 1])
  }

  /** A one-sentence corpus has that sentence's table. */
  lemma SingleCorpusTable(t: CountTable)
    ensures CorpusTable([t]) == t
  {
    var ts: seq<CountTable> := [t];
    assert ts[..0] == [];
    var c := CorpusTable(ts);
    assert c == Merge(CorpusTable(ts[..0]), ts[0]);
    assert CorpusTable(ts[..0]) == map[];
    assert c.Keys == t.Keys;
    forall k | k in t
      ensures c[k] == t[k]
    {
      assert Lookup(c, k) == Lookup(map[], k) + Lookup(t, k);
    }
  }

  lemma {:induction false} CorpusTableConserves(tables: seq<CountTable>)
    requires forall i :: 0 <= i < |tables| ==> Conserving(tables[i]) && Positive(tables[i])
    ensures Conserving(CorpusTable(tables)) && Positive(CorpusTable(tables))
    ensures Anchored(CorpusTable(tables))
    decreases |tables|
  {
    if tables == [] {
      forall w ensures DetailTotal(map[], w) == 0 {
        assert DetailKeys(map[], w) == {};
      }
    } else {
      var n := |tables| - 1;
      CorpusTableConserves(tables[..n]);
      MergeConserves(CorpusTable(tables[..n]), tables[n]);
      MergePositive(CorpusTable(tables[..n]), tables[n]);
    }
    ConservingAnchored(CorpusTable(tables));
  }

  /**
   * End to end: when every sentence's table conserves (as the mappers'
   * tables do) and the sort delivers the corpus table block by block, every
   * ratio the reducer emits lies in (0, 1].
   */
  lemma CorpusRatiosInUnitInterval(tables: seq<CountTable>, bs: seq<Block>)
    requires forall i :: 0 <= i < |tables| ==> Conserving(tables[i]) && Positive(tables[i])
    requires forall i :: 0 <= i < |bs| ==> Describes(bs[i], CorpusTable(tables))
    requires forall i :: 0 < i < |bs| ==> bs[i].anchor != bs[i - 1].anchor
    requires bs != [] ==> bs[0].anchor != Initial.current
    ensures forall e :: e in Run(Initial, Flatten(bs)).1 ==> InUnitInterval(e.ratio)
  {
    CorpusTableConserves(tables);
    forall i | 0 <= i < |bs|
      ensures BlockConserving(bs[i]) && DetailsOf(bs[i])
    {
      DescribedBlockConserves(bs[i], CorpusTable(tables));
    }
    EmittedRatiosInUnitInterval(bs);
  }

  // ----- the reducer with `current` initially unset -----

  /** The reducer's fields with `current` unset until the first marginal group arrives. */
  datatype CorrectedState = CorrectedState(current: Option<string>, marginalCount: nat)

  const CorrectedInitial: CorrectedState := CorrectedState(None, 0)

  /** `Step`, except that an unset `current` matches no anchor, the empty word included. */
  function CorrectedStep(s: CorrectedState, g: Group): (r: (CorrectedState, Option<Emission>))
    ensures r.1.Some? <==> s.current == Some(g.key.fst)
    ensures r.1.Some? ==> r.0 == s && r.1.value == Emission(g.key, Ratio(Sum(g.values), s.marginalCount))
    ensures r.0 != s ==> g.key.snd == MARGINAL && r.0 == CorrectedState(Some(g.key.fst), Sum(g.values))
  {
    if s.current != Some(g.key.fst) then
      if g.key.snd != MARGINAL then (s, None)
      else (CorrectedState(Some(g.key.fst), Sum(g.values)), None)
    else (s, Some(Emission(g.key, Ratio(Sum(g.values), s.marginalCount))))
  }

  function CorrectedRun(s: CorrectedState, gs: seq<Group>): (r: (CorrectedState, seq<Emission>))
    ensures |r.1| <= |gs|
    decreases |gs|
  {
    if gs == [] then (s, [])
    else
      var (s1, e) := CorrectedStep(s, gs[0]);
      var (s2, es) := CorrectedRun(s1, gs[1..]);
      (s2, (if e.Some? then [e.value] else []) + es)
  }

  lemma CorrectedRunCons(s: CorrectedState, g: Group, gs: seq<Group>)
    ensures CorrectedRun(s, [g] + gs).1
         == (if CorrectedStep(s, g).1.Some? then [CorrectedStep(s, g).1.value] else [])
            + CorrectedRun(CorrectedStep(s, g).0, gs).1
  {
    assert ([g] + gs)[0] == g && ([g] + gs)[1..] == gs;
  }

  /** The corrected reducer, too, only writes keys it was given. */
  lemma {:induction false} CorrectedRunKeys(s: CorrectedState, gs: seq<Group>)
    ensures forall e :: e in CorrectedRun(s, gs).1 ==> exists g :: g in gs && g.key == e.key
    decreases |gs|
  {
    if gs != [] {
      CorrectedRunKeys(CorrectedStep(s, gs[0]).0, gs[1..]);
      assert forall g :: g in gs[1..] ==> g in gs;
    }
  }

  /** Once `current` is set, the corrected reducer is the original one. */
  lemma {:induction false} CorrectedRunAgrees(c: string, m: nat, gs: seq<Group>)
    ensures CorrectedRun(CorrectedState(Some(c), m), gs).1 == Run(ReduceState(c, m), gs).1
    decreases |gs|
  {
    if gs != [] {
      var s1 := Step(ReduceState(c, m), gs[0]).0;
      assert CorrectedStep(CorrectedState(Some(c), m), gs[0])
          == (CorrectedState(Some(s1.current), s1.marginalCount), Step(ReduceState(c, m), gs[0]).1);
      CorrectedRunAgrees(s1.current, s1.marginalCount, gs[1..]);
    }
  }

  /** The first marginal group sets the corrected reducer going; from there it is the original one. */
  lemma CorrectedFirstMarginal(bs: seq<Block>)
    requires bs != []
    ensures CorrectedRun(CorrectedInitial, Flatten(bs)).1
         == Run(ReduceState(bs[0].anchor, Sum(bs[0].marginal)), bs[0].details + Flatten(bs[1..])).1
  {
    var b := bs[0];
    var rest := b.details + Flatten(bs[1..]);
    assert Flatten(bs) == [MarginalGroup(b)] + rest;
    CorrectedRunCons(CorrectedInitial, MarginalGroup(b), rest);
    CorrectedRunAgrees(b.anchor, Sum(b.marginal), rest);
  }

  /** The original reducer does the same from any `current` other than the first anchor. */
  lemma OriginalFirstMarginal(s: ReduceState, bs: seq<Block>)
    requires bs != [] && s.current != bs[0].anchor
    ensures Run(s, Flatten(bs)).1
         == Run(ReduceState(bs[0].anchor, Sum(bs[0].marginal)), bs[0].details + Flatten(bs[1..])).1
  {
    var b := bs[0];
    var rest := b.details + Flatten(bs[1..]);
    assert Flatten(bs) == [MarginalGroup(b)] + rest;
    RunAppend(s, [MarginalGroup(b)], rest);
    assert Run(s, [MarginalGroup(b)]) == (ReduceState(b.anchor, Sum(b.marginal)), []);
  }

  /** On sorted blocks the corrected reducer emits the expected ratios whatever the first anchor is. */
  lemma CorrectedRunBlocks(bs: seq<Block>)
    requires forall i :: 0 <= i < |bs| ==> DetailsOf(bs[i])
    requires forall i :: 0 < i < |bs| ==> bs[i].anchor != bs[i - 1].anchor
    ensures CorrectedRun(CorrectedInitial, Flatten(bs)).1 == ExpectedEmissions(bs)
  {
    var other := OtherThanFirstAnchor(bs);
    RunBlocks(other, bs);
    CorrectedActsAsOther(other, bs, ExpectedEmissions(bs));
  }

  /** Some reducer state whose `current` is not the first anchor. */
  ghost function OtherThanFirstAnchor(bs: seq<Block>): (s: ReduceState)
    ensures bs != [] ==> s.current != bs[0].anchor
  {
    if bs != [] && bs[0].anchor == "" then ReduceState("/", 0) else Initial
  }

  /** An unset `current` behaves like any `current` other than the first anchor. */
  lemma CorrectedActsAsOther(s: ReduceState, bs: seq<Block>, es: seq<Emission>)
    requires bs != [] ==> s.current != bs[0].anchor
    requires Run(s, Flatten(bs)).1 == es
    ensures CorrectedRun(CorrectedInitial, Flatten(bs)).1 == es
  {
    if bs == [] {
      assert Flatten(bs) == [];
    } else {
      CorrectedFirstMarginal(bs);
      OriginalFirstMarginal(s, bs);
    }
  }

  /**
   * The end-to-end ratio bound for the corrected reducer, with no condition on
   * the first anchor.
   */
  lemma CorrectedCorpusRatiosInUnitInterval(tables: seq<CountTable>, bs: seq<Block>)
    requires forall i :: 0 <= i < |tables| ==> Conserving(tables[i]) && Positive(tables[i])
    requires forall i :: 0 <= i < |bs| ==> Describes(bs[i], CorpusTable(tables))
    requires forall i :: 0 < i < |bs| ==> bs[i].anchor != bs[i - 1].anchor
    ensures forall e :: e in CorrectedRun(CorrectedInitial, Flatten(bs)).1 ==> InUnitInterval(e.ratio)
  {
    CorpusTableConserves(tables);
    forall i | 0 <= i < |bs|
      ensures BlockConserving(bs[i]) && DetailsOf(bs[i])
    {
      DescribedBlockConserves(bs[i], CorpusTable(tables));
    }
    CorrectedRunBlocks(bs);
    ExpectedInUnitInterval(bs);
  }

  /** The empty-source sentence again: the marginal sets the denominator and the detail gets 1/1. */
  lemma CorrectedEmptyFirstAnchor()
    ensures CorrectedRun(CorrectedInitial, Flatten([EmptyAnchorBlock])).1
         == [Emission(TextPair("", UNALIGNED), Ratio(1, 1))]
  {
    var gs := Flatten([EmptyAnchorBlock]);
    assert [EmptyAnchorBlock][1..] == [];
    assert gs == [MarginalGroup(EmptyAnchorBlock)] + EmptyAnchorBlock.details + Flatten([]);
    assert gs == [Group(TextPair("", MARGINAL), [1]), Group(TextPair("", UNALIGNED), [1])];
    assert Sum([1]) == 1;
    var started := CorrectedState(Some(""), 1);
    assert CorrectedStep(CorrectedInitial, gs[0]) == (started, None);
    assert CorrectedRun(started, gs[1..][1..]) == (started, []);
    assert CorrectedRun(started, gs[1..]).1 == [Emission(TextPair("", UNALIGNED), Ratio(1, 1))];
  }

  // ----- a worked example: `le` / `the this`, links 0-0 and 0-1 -----

  const ExampleLinks: Alignment := [Link(0, 0), Link(0, 1)]

  const ExampleCounts: CountTable :=
    map[TextPair("le", "the") := 1, TextPair("le", "this") := 1, TextPair("le", MARGINAL) := 2]

  /** The sorted groups of the example's table: the marginal 2, then `the` and `this`. */
  const ExampleBlock: Block :=
    Block("le", [2], [Group(TextPair("le", "the"), [1]), Group(TextPair("le", "this"), [1])])

  /** `le` links to both target words, so each gets 1 and the marginal is 2. */
  lemma ExampleTable()
    ensures TargetGivenSource(["le"], ["the", "this"], ExampleLinks) == ExampleCounts
  {
    assert F2E(ExampleLinks, 0) == [0, 1];
    assert TokensAt(["the", "this"], [0, 1]) == ["the", "this"];
    assert SourcePartners(["the", "this"], ExampleLinks, 1) == [["the", "this"]];
    assert AddPartners(map[], "le", ["the"]) == map[TextPair("le", "the") := 1];
    assert AddPartners(map[], "le", ["the", "this"])
        == map[TextPair("le", "the") := 1, TextPair("le", "this") := 1];
  }

  /** The example's table conserves and holds positive counts, as the mapper's tables do. */
  lemma ExampleConserves()
    ensures Conserving(ExampleCounts) && Positive(ExampleCounts)
  {
    TargetGivenSourceConserves(["le"], ["the", "this"], ExampleLinks);
    ExampleTable();
  }

  /** `ExampleBlock` is how the sort delivers the example's table. */
  lemma ExampleDescribed()
    ensures Describes(ExampleBlock, ExampleCounts)
  {
    var kThe := TextPair("le", "the");
    var kThis := TextPair("le", "this");
    assert DetailKeys(ExampleCounts, "le") == {kThe, kThis};
    var ks := set j | 0 <= j < 2 :: ExampleBlock.details[j].key;
    assert ExampleBlock.details[0].key in ks && ExampleBlock.details[1].key in ks;
    assert forall k :: k in ks ==> k == kThe || k == kThis;
  }

  /**
   * End to end on the example: the one-sentence corpus meets every requirement
   * of `CorpusRatiosInUnitInterval`, and the reducer writes 1/2 for each target
   * word, that is `-ln(1/2)` twice.
   */
  lemma ExampleEmissions()
    ensures Run(Initial, Flatten([ExampleBlock])).1
         == [Emission(TextPair("le", "the"), Ratio(1, 2)), Emission(TextPair("le", "this"), Ratio(1, 2))]
    ensures forall e :: e in Run(Initial, Flatten([ExampleBlock])).1 ==> InUnitInterval(e.ratio)
  {
    ExampleConserves();
    ExampleDescribed();
    SingleCorpusTable(ExampleCounts);
    CorpusRatiosInUnitInterval([ExampleCounts], [ExampleBlock]);
    RunBlocks(Initial, [ExampleBlock]);
    assert ExpectedEmissions([ExampleBlock][1..]) == [];
  }
}
