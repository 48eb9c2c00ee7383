/**
 * The glue-rule indicator feature. Every scoring call writes the label
 * "GlueRule" into a feature map the caller owns: 0 for a rule taken from
 * the corpus, 1 for a synthetic unary or binary glue rule. The map is a
 * shared object, so it is a class whose `entries` the feature's methods
 * update in place; no other key is touched.
 */
module GlueRuleFeature {

  /** Feature values: integer counts or indicators, or the value of some other feature. */
  datatype Writable = IntWritable(value: int) | OtherWritable(name: string)

  const LABEL: string := "GlueRule"
  const ZERO: Writable := IntWritable(0)
  const ONE: Writable := IntWritable(1)

  /** The `Map<Text, Writable>` a rule's features are written into. */
  class FeatureMap {
    var entries: map<string, Writable>

    constructor (entries: map<string, Writable>)
      ensures this.entries == entries
    {
      this.entries := entries;
    }
  }

  /** The map after the feature has scored a rule: the label holds 1 for a glue rule and 0 otherwise. */
  function Scored(entries: map<string, Writable>, glue: bool): (r: map<string, Writable>)
    ensures LABEL in r && r[LABEL] == IntWritable(if glue then 1 else 0)
    ensures r.Keys == entries.Keys + {LABEL}
    ensures forall k :: k in entries && k != LABEL ==> r[k] == entries[k]
  {
    entries[LABEL := if glue then ONE else ZERO]
  }

  /** Scoring twice is scoring once with the later verdict; in particular each scoring call is idempotent. */
  lemma {:induction false} ScoredOverrides(entries: map<string, Writable>, first: bool, second: bool)
    ensures Scored(Scored(entries, first), second) == Scored(entries, second)
    ensures Scored(Scored(entries, second), second) == Scored(entries, second)
  {
    var once := Scored(entries, second);
    var twice := Scored(Scored(entries, first), second);
    assert twice.Keys == once.Keys;
    forall k | k in once
      ensures twice[k] == once[k]
    {
    }
  }

  /** Scoring a map never removes a key, and the only key it can add or change is the label. */
  lemma ScoredFrame(entries: map<string, Writable>, glue: bool, k: string)
    ensures k in entries ==> k in Scored(entries, glue)
    ensures k != LABEL ==> (k in Scored(entries, glue) <==> k in entries)
    ensures k != LABEL && k in entries ==> Scored(entries, glue)[k] == entries[k]
  {
  }

  /** `score`: an ordinary rule is not a glue rule. The rule itself is not consulted. */
  method Score<Rule>(r: Rule, m: FeatureMap)
    modifies m
    ensures m.entries == Scored(old(m.entries), false)
  {
    m.entries := m.entries[LABEL := ZERO];
  }

  /** `unaryGlueRuleScore`: whatever the nonterminal, a unary glue rule is marked 1. */
  method UnaryGlueRuleScore(nt: string, m: FeatureMap)
    modifies m
    ensures m.entries == Scored(old(m.entries), true)
  {
    m.entries := m.entries[LABEL := ONE];
  }

  /** `binaryGlueRuleScore`: whatever the nonterminal, a binary glue rule is marked 1. */
  method BinaryGlueRuleScore(nt: string, m: FeatureMap)
    modifies m
    ensures m.entries == Scored(old(m.entries), true)
  {
    m.entries := m.entries[LABEL := ONE];
  }

  /** Two glue scorings of a map that already holds another feature: the result depends on neither nonterminal, and the other feature survives. */
  method GlueScoresAgree()
  {
    var m := new FeatureMap(map["Lex(e|f)" := OtherWritable("0.25")]);
    UnaryGlueRuleScore("[X]", m);
    var afterUnary := m.entries;
    BinaryGlueRuleScore("[S]", m);
    ScoredOverrides(map["Lex(e|f)" := OtherWritable("0.25")], true, true);
    assert m.entries == afterUnary;
    assert m.entries == map["Lex(e|f)" := OtherWritable("0.25"), LABEL := ONE];
    Score(0, m);
    assert m.entries[LABEL] == ZERO && m.entries["Lex(e|f)"] == OtherWritable("0.25");
  }
}
