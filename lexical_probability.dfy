/**
 * The lexical-probability job itself: the two mappers that count one
 * sentence pair into a `HashMap` and write it out, the reducer that turns
 * sorted counts into ratios, and the partitioner that sends every key of
 * one anchor word to the same reducer.
 *
 * Each mapper is a class whose `counts` field is the `HashMap` it clears
 * and refills per input line; `Map` is proved to leave exactly the table of
 * `LexicalCounts` in it and to write every entry once. The reducer is a
 * class over the two fields `current` and `marginalCount`, proved to take
 * the step `LexicalReduce.Step` on every call.
 */
module LexicalProbability {
  import opened Wrappers
  import opened TableSums
  import opened Alignments
  import opened LexicalCounts
  import opened LexicalReduce

  /** One `context.write(key, new IntWritable(count))` of a mapper. */
  datatype Record = Record(key: TextPair, count: nat)

  /** `records` writes every entry of `t` exactly once, with its count. */
  ghost predicate Lists(records: seq<Record>, t: CountTable)
  {
    && (forall i :: 0 <= i < |records| ==> records[i].key in t && records[i].count == t[records[i].key])
    && (forall i, j :: 0 <= i < j < |records| ==> records[i].key != records[j].key)
    && (forall k :: k in t ==> exists i :: 0 <= i < |records| && records[i].key == k)
  }

  /** The loop over `counts.keySet()`: one record per key, in the map's own (unspecified) order. */
  method WriteCounts(t: CountTable) returns (records: seq<Record>)
    ensures Lists(records, t)
  {
    records := [];
    var rest := t.Keys;
    while rest != {}
      invariant rest <= t.Keys
      invariant forall i :: 0 <= i < |records| ==> records[i].key in t && records[i].key !in rest && records[i].count == t[records[i].key]
      invariant forall i, j :: 0 <= i < j < |records| ==> records[i].key != records[j].key
      invariant forall k :: k in t && k !in rest ==> exists i :: 0 <= i < |records| && records[i].key == k
      decreases rest
    {
      var k :| k in rest;
      ghost var earlier := records;
      records := records + [Record(k, t[k])];
      forall k' | k' in t && k' !in rest - {k}
        ensures exists i :: 0 <= i < |records| && records[i].key == k'
      {
        if k' == k {
          assert records[|earlier|].key == k';
        } else {
          var i :| 0 <= i < |earlier| && earlier[i].key == k';
          assert records[i] == earlier[i];
        }
      }
      rest := rest - {k};
    }
  }

  /** The keys written by `records`. */
  ghost function KeysOf(records: seq<Record>): set<TextPair>
  {
    set i | 0 <= i < |records| :: records[i].key
  }

  lemma {:induction false} DistinctKeysCount(records: seq<Record>)
    requires forall i, j :: 0 <= i < j < |records| ==> records[i].key != records[j].key
    ensures |KeysOf(records)| == |records|
    decreases |records|
  {
    if records != [] {
      var n := |records| - 1;
      var front := records[..n];
      DistinctKeysCount(front);
      assert KeysOf(records) == KeysOf(front) + {records[n].key};
      assert records[n].key !in KeysOf(front);
    }
  }

  /** A listing writes one record per entry of the table, and the records determine the table. */
  lemma ListsDetermine(records: seq<Record>, t1: CountTable, t2: CountTable)
    requires Lists(records, t1)
    ensures |records| == |t1|
    ensures Lists(records, t2) ==> t1 == t2
  {
    assert KeysOf(records) == t1.Keys;
    DistinctKeysCount(records);
    if Lists(records, t2) {
      assert t1.Keys == t2.Keys;
      forall k | k in t1
        ensures t1[k] == t2[k]
      {
        var i :| 0 <= i < |records| && records[i].key == k;
      }
    }
  }

  /** `counts.put(k, counts.containsKey(k) ? counts.get(k) + n : n)` is `Bump`. */
  lemma BumpIsPut(t: CountTable, k: TextPair, n: nat)
    ensures t[k := if k in t then t[k] + n else n] == Bump(t, k, n)
  {
  }

  /** The outer loop's step: the table of the first `i + 1` positions extends that of the first `i`. */
  lemma TablePrefix(anchors: seq<string>, partners: seq<seq<string>>, i: nat)
    requires |anchors| == |partners| && i < |anchors|
    ensures Table(anchors[..i + 1], partners[..i + 1]) == AddPosition(Table(anchors[..i], partners[..i]), anchors[i], partners[i])
  {
    assert anchors[..i + 1][..i] == anchors[..i];
    assert partners[..i + 1][..i] == partners[..i];
  }

  /** The inner loop's step: one more listed partner is one more bump. */
  lemma AddPartnersPrefix(t: CountTable, anchor: string, ps: seq<string>, k: nat)
    requires k < |ps|
    ensures AddPartners(t, anchor, ps[..k + 1]) == Bump(AddPartners(t, anchor, ps[..k]), TextPair(anchor, ps[k]), 1)
  {
    assert ps[..k + 1][..k] == ps[..k];
  }

  /** `TargetGivenSourceMap`: anchors are the source words, partners the target words linked to them. */
  class TargetGivenSourceMap {
    var counts: CountTable

    constructor ()
      ensures counts == map[]
    {
      counts := map[];
    }

    /** The inner loop: one count for `(anchor, others[x])` per listed position `x`. */
    method CountLinks(anchor: string, others: seq<string>, xs: seq<nat>)
      requires forall k :: 0 <= k < |xs| ==> xs[k] < |others|
      modifies this
      ensures counts == AddPartners(old(counts), anchor, TokensAt(others, xs))
    {
      ghost var linked := TokensAt(others, xs);
      var k := 0;
      while k < |xs|
        invariant 0 <= k <= |xs|
        invariant counts == AddPartners(old(counts), anchor, linked[..k])
      {
        AddPartnersPrefix(old(counts), anchor, linked, k);
        var tp := TextPair(anchor, others[xs[k]]);
        BumpIsPut(counts, tp, 1);
        counts := counts[tp := if tp in counts then counts[tp] + 1 else 1];
        k := k + 1;
      }
      assert linked[..k] == linked;
    }

    /** One anchor position: its links and their number as the marginal, or one UNALIGNED and a marginal of 1. */
    method CountPosition(anchor: string, aligned: bool, others: seq<string>, xs: seq<nat>)
      requires aligned <==> |xs| > 0
      requires forall k :: 0 <= k < |xs| ==> xs[k] < |others|
      modifies this
      ensures counts == AddPosition(old(counts), anchor, TokensAt(others, xs))
    {
      var marginal := TextPair(anchor, MARGINAL);
      if aligned {
        CountLinks(anchor, others, xs);
        BumpIsPut(counts, marginal, |xs|);
        counts := counts[marginal := if marginal in counts then counts[marginal] + |xs| else |xs|];
      } else {
        var tp := TextPair(anchor, UNALIGNED);
        BumpIsPut(counts, tp, 1);
        counts := counts[tp := if tp in counts then counts[tp] + 1 else 1];
        BumpIsPut(counts, marginal, 1);
        counts := counts[marginal := if marginal in counts then counts[marginal] + 1 else 1];
      }
    }

    /**
     * One input line, already split into its two token lists and its
     * alignment: clears `counts`, counts every source position, and writes
     * every entry. Afterwards `counts` is the table `TargetGivenSource`.
     */
    method Map(source: seq<string>, target: seq<string>, a: Alignment) returns (records: seq<Record>)
      requires SourceLinksInRange(a, |source|, |target|)
      modifies this
      ensures counts == TargetGivenSource(source, target, a)
      ensures Lists(records, counts)
    {
      ghost var partners := SourcePartners(target, a, |source|);
      counts := map[];
      var i := 0;
      while i < |source|
        invariant 0 <= i <= |source|
        invariant counts == Table(source[..i], partners[..i])
      {
        TablePrefix(source, partners, i);
        AlignedIffF2ENonEmpty(a, i);
        CountPosition(source[i], SourceIndexIsAligned(a, i), target, F2E(a, i));
        i := i + 1;
      }
      assert source[..i] == source && partners[..i] == partners;
      records := WriteCounts(counts);
    }
  }

  /** `SourceGivenTargetMap`: anchors are the target words, partners the source words linked to them. */
  class SourceGivenTargetMap {
    var counts: CountTable

    constructor ()
      ensures counts == map[]
    {
      counts := map[];
    }

    /** The inner loop: one count for `(anchor, others[x])` per listed position `x`. */
    method CountLinks(anchor: string, others: seq<string>, xs: seq<nat>)
      requires forall k :: 0 <= k < |xs| ==> xs[k] < |others|
      modifies this
      ensures counts == AddPartners(old(counts), anchor, TokensAt(others, xs))
    {
      ghost var linked := TokensAt(others, xs);
      var k := 0;
      while k < |xs|
        invariant 0 <= k <= |xs|
        invariant counts == AddPartners(old(counts), anchor, linked[..k])
      {
        AddPartnersPrefix(old(counts), anchor, linked, k);
        var tp := TextPair(anchor, others[xs[k]]);
        BumpIsPut(counts, tp, 1);
        counts := counts[tp := if tp in counts then counts[tp] + 1 else 1];
        k := k + 1;
      }
      assert linked[..k] == linked;
    }

    /** One anchor position: its links and their number as the marginal, or one UNALIGNED and a marginal of 1. */
    method CountPosition(anchor: string, aligned: bool, others: seq<string>, xs: seq<nat>)
      requires aligned <==> |xs| > 0
      requires forall k :: 0 <= k < |xs| ==> xs[k] < |others|
      modifies this
      ensures counts == AddPosition(old(counts), anchor, TokensAt(others, xs))
    {
      var marginal := TextPair(anchor, MARGINAL);
      if aligned {
        CountLinks(anchor, others, xs);
        BumpIsPut(counts, marginal, |xs|);
        counts := counts[marginal := if marginal in counts then counts[marginal] + |xs| else |xs|];
      } else {
        var tp := TextPair(anchor, UNALIGNED);
        BumpIsPut(counts, tp, 1);
        counts := counts[tp := if tp in counts then counts[tp] + 1 else 1];
        BumpIsPut(counts, marginal, 1);
        counts := counts[marginal := if marginal in counts then counts[marginal] + 1 else 1];
      }
    }

    /** The mirror image of `TargetGivenSourceMap.Map`, walking the target positions through `e2f`. */
    method Map(source: seq<string>, target: seq<string>, a: Alignment) returns (records: seq<Record>)
      requires TargetLinksInRange(a, |source|, |target|)
      modifies this
      ensures counts == SourceGivenTarget(source, target, a)
      ensures Lists(records, counts)
    {
      InverseLinksInRange(a, |source|, |target|);
      ghost var partners := SourcePartners(source, Inverse(a), |target|);
      counts := map[];
      var i := 0;
      while i < |target|
        invariant 0 <= i <= |target|
        invariant counts == Table(target[..i], partners[..i])
      {
        TablePrefix(target, partners, i);
        SourceGivenTargetPartners(source, target, a, i);
        AlignedIffE2FNonEmpty(a, i);
        CountPosition(target[i], TargetIndexIsAligned(a, i), source, E2F(a, i));
        i := i + 1;
      }
      assert target[..i] == target && partners[..i] == partners;
      records := WriteCounts(counts);
    }
  }

  /** The reducer: `current` is the anchor whose marginal was seen last, `marginalCount` that marginal. */
  class Reduce {
    var current: string
    var marginalCount: nat

    /** `new Text()` is empty and the `int` field starts at 0. */
    constructor ()
      ensures State() == Initial
    {
      current := "";
      marginalCount := 0;
    }

    function State(): ReduceState
      reads this
    {
      ReduceState(current, marginalCount)
    }

    /**
     * One group: a group of a new anchor is skipped unless it is that
     * anchor's marginal, which becomes the denominator; a group of the
     * current anchor writes its summed count over that denominator.
     */
    method Reduce(key: TextPair, values: seq<nat>) returns (out: Option<Emission>)
      modifies this
      ensures (State(), out) == Step(old(State()), Group(key, values))
    {
      if key.fst != current {
        if key.snd != MARGINAL {
          return None;
        }
        current := key.fst;
        marginalCount := 0;
        var k := 0;
        while k < |values|
          invariant 0 <= k <= |values|
          invariant current == key.fst
          invariant marginalCount == Sum(values[..k])
        {
          assert values[..k + 1][..k] == values[..k];
          marginalCount := marginalCount + values[k];
          k := k + 1;
        }
        assert values[..k] == values;
        return None;
      }
      var myCount := 0;
      var k := 0;
      while k < |values|
        invariant 0 <= k <= |values|
        invariant State() == old(State())
        invariant myCount == Sum(values[..k])
      {
        assert values[..k + 1][..k] == values[..k];
        myCount := myCount + values[k];
        k := k + 1;
      }
      assert values[..k] == values;
      return Some(Emission(key, Ratio(myCount, marginalCount)));
    }
  }

  // ----- the partitioner -----

  /** A Java `int`. */
  type Int32 = x: int | -0x8000_0000 <= x < 0x8000_0000

  /** Java's `%`: the remainder truncates toward zero, so it takes the sign of the dividend. */
  function JavaRemainder(a: int, n: int): (r: int)
    requires n > 0
    ensures -n < r < n
    ensures a >= 0 ==> 0 <= r
    ensures a < 0 ==> r <= 0
    ensures (a - r) % n == 0
  {
    TruncatedRemainderDifference(a, n);
    if a >= 0 then a % n else -((-a) % n)
  }

  /** The dividend minus its truncated remainder is a multiple of `n`. */
  lemma TruncatedRemainderDifference(a: int, n: int)
    requires n > 0
    ensures (a - (if a >= 0 then a % n else -((-a) % n))) % n == 0
  {
    if a >= 0 {
      assert a - a % n == (a / n) * n;
      MultipleRemainder(a / n, n);
    } else {
      var b := -a;
      assert b - b % n == (b / n) * n;
      assert a + b % n == (-(b / n)) * n;
      MultipleRemainder(-(b / n), n);
    }
  }

  /** A multiple of `n` leaves remainder 0. */
  lemma MultipleRemainder(q: int, n: int)
    requires n > 0
    ensures (q * n) % n == 0
  {
    var k := (q * n) / n - q;
    var r := (q * n) % n;
    assert (q * n) / n * n + r == q * n;
    assert k * n == (q * n) / n * n - q * n;
    ProductBounds(k, n);
    assert k == 0;
  }

  lemma ProductBounds(k: int, n: int)
    requires n > 0
    ensures k >= 1 ==> k * n >= n
    ensures k <= -1 ==> k * n <= -n
  {
    if k >= 1 {
      assert k * n == n + (k - 1) * n;
    } else if k <= -1 {
      assert k * n == -n + (k + 1) * n;
    }
  }

  /** `key.fst.hashCode() % numPartitions`, with the hash of a word given as a function. */
  function GetPartition(key: TextPair, numPartitions: int, hashCode: string -> Int32): (r: int)
    requires numPartitions > 0
    ensures -numPartitions < r < numPartitions
    ensures (hashCode(key.fst) - r) % numPartitions == 0
  {
    JavaRemainder(hashCode(key.fst), numPartitions)
  }

  /** Every key of one anchor word goes to the same reducer, so that reducer sees the anchor's marginal. */
  lemma SameAnchorSamePartition(k1: TextPair, k2: TextPair, numPartitions: int, hashCode: string -> Int32)
    requires numPartitions > 0
    requires k1.fst == k2.fst
    ensures GetPartition(k1, numPartitions, hashCode) == GetPartition(k2, numPartitions, hashCode)
    ensures GetPartition(k1, numPartitions, hashCode) == GetPartition(TextPair(k1.fst, MARGINAL), numPartitions, hashCode)
  {
  }

  /** What the partitioner returns lies strictly between `-numPartitions` and `numPartitions`, and is negative only for a negative hash. */
  lemma PartitionRange(key: TextPair, numPartitions: int, hashCode: string -> Int32)
    requires numPartitions > 0
    ensures -numPartitions < GetPartition(key, numPartitions, hashCode) < numPartitions
    ensures GetPartition(key, numPartitions, hashCode) < 0 ==> hashCode(key.fst) < 0
  {
  }

  /** A word whose hash is -1, with two reducers, is sent to partition -1, which is no reducer. */
  lemma NegativeHashGivesNegativePartition()
    ensures GetPartition(TextPair("w", MARGINAL), 2, (s: string) => -1) == -1
  {
  }

  /** `hashCode & Integer.MAX_VALUE`: clearing the sign bit of a two's-complement `int`. */
  function ClearSignBit(h: Int32): (r: int)
    ensures 0 <= r < 0x8000_0000
    ensures (r - h) % 0x8000_0000 == 0
  {
    if h >= 0 then h else h + 0x8000_0000
  }

  /** The partitioner with the sign bit cleared before the remainder, as Hadoop's own hash partitioner does. */
  function CorrectedPartition(key: TextPair, numPartitions: int, hashCode: string -> Int32): (r: int)
    requires numPartitions > 0
    ensures 0 <= r < numPartitions
    ensures hashCode(key.fst) >= 0 ==> r == GetPartition(key, numPartitions, hashCode)
  {
    ClearSignBit(hashCode(key.fst)) % numPartitions
  }

  /** The corrected partition is always a reducer, keeps an anchor's keys together, and agrees with the original on non-negative hashes. */
  lemma CorrectedPartitionInRange(k1: TextPair, k2: TextPair, numPartitions: int, hashCode: string -> Int32)
    requires numPartitions > 0
    ensures 0 <= CorrectedPartition(k1, numPartitions, hashCode) < numPartitions
    ensures k1.fst == k2.fst ==> CorrectedPartition(k1, numPartitions, hashCode) == CorrectedPartition(k2, numPartitions, hashCode)
    ensures hashCode(k1.fst) >= 0 ==> CorrectedPartition(k1, numPartitions, hashCode) == GetPartition(k1, numPartitions, hashCode)
  {
  }
}
