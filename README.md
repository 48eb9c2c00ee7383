# Thrax lexical probabilities, job scheduler and glue-rule feature in Dafny

This project models four parts of the Thrax grammar-extraction pipeline and
proves properties of them.

- **Lexical probabilities** (`LexicalProbability.java`). Two mappers count one
  aligned sentence pair into a per-sentence table. For each anchor word they
  count every `(anchor, linked word)` pair, or `(anchor, /UNALIGNED/)` when
  the word has no link. They also count `(anchor, /MARGINAL/)` with the
  anchor's number of links, or 1 when it has none, then write every entry
  of the table.
  `TargetGivenSourceMap` anchors on source words through `f2e`;
  `SourceGivenTargetMap` anchors on target words through `e2f`.
  A streaming reducer reads sorted key groups. An anchor's marginal group
  sets the denominator, and each later group of that anchor writes
  `count / marginal`. A partitioner routes keys by the hash of the anchor.
- **Job scheduler** (`Scheduler.java`). A table from job class to job state.
  `schedule` registers the prerequisites of a job recursively before the job
  itself. `setState` overwrites a registered job's state. There are also
  four queries.
- **Glue-rule feature** (`GlueRuleFeature.java`). Three methods that write
  the `GlueRule` label into a caller's feature map.
- **Word alignments** (`ArrayAlignmentTest.java`). The link list behind
  `f2e`/`e2f`, its `"s-t s-t"` text form, and the membership queries the
  tests assert.

Files:

| file | module | contents |
|---|---|---|
| `wrappers.dfy` | `Wrappers` | `Option` |
| `alignment.dfy` | `Alignments` | links, `f2e`/`e2f`, the text form and its parser, the test cases |
| `table_sums.dfy` | `TableSums` | count tables with absent keys read as 0, and their sums |
| `lexical_counts.dfy` | `LexicalCounts` | the per-sentence table as a specification, and its conservation law |
| `lexical_reduce.dfy` | `LexicalReduce` | the reducer as a state machine over sorted groups, and the ratio bound |
| `lexical_probability.dfy` | `LexicalProbability` | the mapper and reducer classes, and the partitioner |
| `scheduler.dfy` | `Scheduling` | the `Scheduler` class |
| `glue_rule_feature.dfy` | `GlueRuleFeature` | the feature map class and the three scoring methods |

The main results:

- Each mapper leaves exactly the specified table in its `counts` field.
  It writes each entry once.
- Provided no partner word is literally `/MARGINAL/`, the table conserves:
  for every anchor, the detail counts add up to the `/MARGINAL/` count.
  Every anchor has a marginal of at least 1. Summing the tables of a
  corpus keeps both facts.
- For sorted input that describes such a table and whose first anchor is
  not the empty word, the reducer writes one ratio per detail key, and each
  ratio lies in (0, 1]. So every `-ln` the job writes is at least 0
  (`LexicalReduce.CorpusRatiosInUnitInterval`; `ExampleEmissions` applies
  it to the pair `le` / `the this`, which gets 1/2 twice). A sentence pair
  with an empty target side (the anchor side of the installed
  `SourceGivenTargetMap`), or an empty source side under
  `TargetGivenSourceMap`, has the empty word as its one anchor, and the
  reducer then divides by its initial marginal 0; see "Findings". A reducer whose
  `current` starts unset has the bound with no condition on the first
  anchor (`LexicalReduce.CorrectedCorpusRatiosInUnitInterval`).
- `schedule(j)` registers exactly `j` and the jobs it reaches through
  prerequisites that were not yet registered. Earlier jobs keep their
  states. New jobs start `Ready` or `Waiting`.

## Model

| member | source | states |
|---|---|---|
| Alignments.SourceIndexIsAligned | test/edu/jhu/thrax/datatypes/ArrayAlignmentTest.java:9-46 | a source index, of any integer value, is aligned exactly when it is the first number of some listed pair; so a negative or too-large index is simply not aligned |
| Alignments.TargetIndexIsAligned | test/edu/jhu/thrax/datatypes/ArrayAlignmentTest.java:16-55 | a target index is aligned exactly when it is the second number of some listed pair |
| Alignments.F2E | src/edu/jhu/thrax/hadoop/features/LexicalProbability.java:47-48 | `f2e[i]` holds exactly the target positions linked to source position `i`; each entry comes from a listed link, and there are no more entries than links |
| Alignments.E2F | src/edu/jhu/thrax/hadoop/features/LexicalProbability.java:84-85 | `e2f[j]` holds exactly the source positions linked to target position `j`, each from a listed link |
| Alignments.AlignedIffF2ENonEmpty | src/edu/jhu/thrax/hadoop/features/LexicalProbability.java:47-48 | `sourceIsAligned(i)` holds exactly when `f2e[i]` is non-empty, so the mapper's aligned branch always has links to walk |
| Alignments.AlignedIffE2FNonEmpty | src/edu/jhu/thrax/hadoop/features/LexicalProbability.java:84-85 | `targetIsAligned(j)` holds exactly when `e2f[j]` is non-empty |
| Alignments.Inverse | src/edu/jhu/thrax/hadoop/features/LexicalProbability.java:82-98 | the alignment seen from the target side: the same length, with each link `s-t` turned into `t-s` |
| Alignments.E2FIsF2EOfInverse | src/edu/jhu/thrax/hadoop/features/LexicalProbability.java:82-98 | `e2f` of an alignment is `f2e` of its inverse, and target alignment is source alignment of the inverse |
| Alignments.InverseInverse | src/edu/jhu/thrax/hadoop/features/LexicalProbability.java:82-98 | inverting twice gives back the alignment |
| Alignments.ParseNat | test/edu/jhu/thrax/datatypes/ArrayAlignmentTest.java:42 | a numeral parses exactly when it is a non-empty string of decimal digits |
| Alignments.ParseNatToString | test/edu/jhu/thrax/datatypes/ArrayAlignmentTest.java:42 | printing a number in decimal and parsing the result gives back the number |
| Alignments.SplitJoin | test/edu/jhu/thrax/datatypes/ArrayAlignmentTest.java:12 | splitting at the separator undoes joining words that do not contain it |
| Alignments.ParseLinksRoundTrip | test/edu/jhu/thrax/datatypes/ArrayAlignmentTest.java:12 | parsing the printed `s-t` words of a link list gives back that list |
| Alignments.FromStringToString | test/edu/jhu/thrax/datatypes/ArrayAlignmentTest.java:12 | reading the printed text form of any alignment gives back that alignment |
| Alignments.ParseSparse | test/edu/jhu/thrax/datatypes/ArrayAlignmentTest.java:12 | `"0-0 2-2"` reads as the links 0-0 and 2-2 |
| Alignments.FromString | test/edu/jhu/thrax/datatypes/ArrayAlignmentTest.java:12 | the text parses exactly when every blank-separated word is an `s-t` pair, and then gives one link per word, in order |
| Alignments.ParseWide | test/edu/jhu/thrax/datatypes/ArrayAlignmentTest.java:42 | `"0-0 1-2 77-32"` reads as the links 0-0, 1-2 and 77-32 |
| Alignments.SparseAlignmentQueries | test/edu/jhu/thrax/datatypes/ArrayAlignmentTest.java:9-37 | in `"0-0 2-2"`, index 1 is aligned on neither side, and the out-of-range indices -1 and 3 report "not aligned" on both sides |
| Alignments.WideAlignmentQueries | test/edu/jhu/thrax/datatypes/ArrayAlignmentTest.java:39-55 | in `"0-0 1-2 77-32"`, source indices 0, 1, 77 and target indices 0, 2, 32 are aligned |
| LexicalCounts.AddPartnersLookup | src/edu/jhu/thrax/hadoop/features/LexicalProbability.java:48-52 | after the inner loop each `(anchor, w)` has gained the number of times `w` occurs among the linked words, and no other key has changed |
| LexicalCounts.AddPartnersKeys | src/edu/jhu/thrax/hadoop/features/LexicalProbability.java:48-52 | the inner loop adds exactly the keys `(anchor, w)` for the linked words `w` and removes none |
| LexicalCounts.AddPosition | src/edu/jhu/thrax/hadoop/features/LexicalProbability.java:46-58 | after one position the anchor has a marginal entry, no key is lost, and every new key belongs to the anchor |
| LexicalCounts.Table | src/edu/jhu/thrax/hadoop/features/LexicalProbability.java:44-59 | after all positions every anchor of the sentence has a marginal entry and every key's anchor is a word of the sentence |
| LexicalCounts.TargetGivenSource | src/edu/jhu/thrax/hadoop/features/LexicalProbability.java:44-59 | the first mapper's table has a marginal entry for every source word and keys anchored only on source words |
| LexicalCounts.SourceGivenTarget | src/edu/jhu/thrax/hadoop/features/LexicalProbability.java:82-98 | the second mapper's table has a marginal entry for every target word and keys anchored only on target words |
| LexicalCounts.AddPositionLookup | src/edu/jhu/thrax/hadoop/features/LexicalProbability.java:47-58 | what one position adds to each key: for an aligned position, each partner's multiplicity plus the link count on `/MARGINAL/`; for an unaligned one, 1 on `/UNALIGNED/` and 1 on `/MARGINAL/` |
| LexicalCounts.TableLookup | src/edu/jhu/thrax/hadoop/features/LexicalProbability.java:44-60 | the count of every key is the sum, over the positions holding its anchor, of what that position adds to it |
| LexicalCounts.TableKeys | src/edu/jhu/thrax/hadoop/features/LexicalProbability.java:44-60 | a key appears in the table exactly when some position adds to it, and then with that total |
| LexicalCounts.TablePositive | src/edu/jhu/thrax/hadoop/features/LexicalProbability.java:44-60 | every count the table holds is at least 1 |
| LexicalCounts.AddPositionConserves | src/edu/jhu/thrax/hadoop/features/LexicalProbability.java:47-58 | one position keeps every anchor's detail counts summing to its marginal count, provided no linked word spells `/MARGINAL/` |
| LexicalCounts.AddPositionAnchored | src/edu/jhu/thrax/hadoop/features/LexicalProbability.java:53-58 | after a position, every anchor in the table has a marginal count of at least 1 |
| LexicalCounts.TableConserves | src/edu/jhu/thrax/hadoop/features/LexicalProbability.java:44-60 | conservation for the whole sentence: each anchor's non-marginal counts add up to its marginal count, which is at least 1 |
| LexicalCounts.MarginalTokenBreaksConservation | src/edu/jhu/thrax/hadoop/features/LexicalProbability.java:27-28 | conservation needs its precondition: the one-word sentence `le` whose only partner is literally `/MARGINAL/` yields the table with the marginal key at 2 and no detail key, which does not conserve |
| LexicalCounts.MergeConserves | src/edu/jhu/thrax/hadoop/features/LexicalProbability.java:144 | adding two conserving tables key by key, as the combiner does, gives a conserving table |
| LexicalCounts.MergeAnchored | src/edu/jhu/thrax/hadoop/features/LexicalProbability.java:144 | the sum of two tables in which every anchor has a marginal still has a marginal for every anchor |
| LexicalCounts.MergePositive | src/edu/jhu/thrax/hadoop/features/LexicalProbability.java:144 | the sum of two tables of positive counts has positive counts |
| LexicalCounts.InverseLinksInRange | src/edu/jhu/thrax/hadoop/features/LexicalProbability.java:85-86 | the inverse alignment keeps its links inside the sentences exactly when every link into a target position starts inside the source sentence |
| LexicalCounts.SourceGivenTargetPartners | src/edu/jhu/thrax/hadoop/features/LexicalProbability.java:84-86 | for target position `j`, the words the mirror mapper counts are the source words at `e2f[j]`, all inside the sentence |
| LexicalCounts.TargetGivenSourceConserves | src/edu/jhu/thrax/hadoop/features/LexicalProbability.java:44-60 | the target-given-source table of a sentence pair conserves, has a marginal for every anchor, and holds only positive counts, provided no target word spells `/MARGINAL/` |
| LexicalCounts.SourceGivenTargetConserves | src/edu/jhu/thrax/hadoop/features/LexicalProbability.java:82-98 | the same three facts for the source-given-target table, provided no source word spells `/MARGINAL/` |
| LexicalReduce.RunAppend | src/edu/jhu/thrax/hadoop/features/LexicalProbability.java:112-128 | feeding two group sequences one after the other gives the same final state, and emits the first part's output followed by the second's |
| LexicalReduce.RunDetails | src/edu/jhu/thrax/hadoop/features/LexicalProbability.java:123-127 | groups of the current anchor leave the state alone and each emit its summed count over the current marginal |
| LexicalReduce.Step | src/edu/jhu/thrax/hadoop/features/LexicalProbability.java:112-128 | one `reduce` call writes something exactly when the anchor is `current`, and then writes the group's sum over the current marginal and keeps the fields; the fields change only on a marginal group, to its anchor and sum |
| LexicalReduce.Run | src/edu/jhu/thrax/hadoop/features/LexicalProbability.java:112-128 | a run of `reduce` calls writes at most one ratio per group |
| LexicalReduce.RunKeys | src/edu/jhu/thrax/hadoop/features/LexicalProbability.java:112-128 | every key the reducer writes is the key of one of its input groups |
| LexicalReduce.RunBlock | src/edu/jhu/thrax/hadoop/features/LexicalProbability.java:112-128 | a block read from a `current` other than its anchor sets `current` and the marginal from its marginal group, then writes one ratio per detail group |
| LexicalReduce.RunBlocks | src/edu/jhu/thrax/hadoop/features/LexicalProbability.java:112-128 | on input sorted marginal-first and contiguous per anchor, read from a `current` other than the first anchor, the reducer emits one ratio per detail group and nothing else: that group's count over its own anchor's marginal total |
| LexicalReduce.ExpectedInUnitInterval | src/edu/jhu/thrax/hadoop/features/LexicalProbability.java:123-127 | when each block's detail counts are positive and add up to its marginal, every ratio `count / marginal` lies in (0, 1] |
| LexicalReduce.EmittedRatiosInUnitInterval | src/edu/jhu/thrax/hadoop/features/LexicalProbability.java:112-128 | for sorted, conserving input whose first anchor is not the empty word, every ratio the reducer emits lies in (0, 1] |
| LexicalReduce.EmptyFirstAnchorDividesByZero | src/edu/jhu/thrax/hadoop/features/LexicalProbability.java:109-127 | because `current` starts as the empty string, the block of an empty anchor side (anchor the empty word, one unaligned partner) has its marginal group and its detail group both divided by the initial marginal 0 |
| LexicalReduce.EmptyTargetSideTable | src/edu/jhu/thrax/hadoop/features/LexicalProbability.java:82-98 | the installed mapper on a sentence pair with an empty target side gives the empty word one unaligned count and a marginal of 1, which `EmptyAnchorBlock` describes |
| LexicalReduce.DescribedBlockConserves | src/edu/jhu/thrax/hadoop/features/LexicalProbability.java:123-127 | the group block of an anchor of a conserving, positive table has positive detail groups that sum to its marginal group |
| LexicalReduce.CorpusTableConserves | src/edu/jhu/thrax/hadoop/features/LexicalProbability.java:144 | adding up any number of conserving, positive sentence tables gives a conserving, positive corpus table in which every anchor has a marginal of at least 1 |
| LexicalReduce.SingleCorpusTable | src/edu/jhu/thrax/hadoop/features/LexicalProbability.java:144 | a one-sentence corpus has that sentence's table |
| LexicalCounts.ConservingAnchored | src/edu/jhu/thrax/hadoop/features/LexicalProbability.java:53-58 | in a conserving table of positive counts every key's anchor has a marginal of at least 1 |
| LexicalReduce.CorpusRatiosInUnitInterval | src/edu/jhu/thrax/hadoop/features/LexicalProbability.java:112-128 | end to end: if the mappers' tables conserve and the sort delivers the summed table anchor by anchor, every ratio the reducer emits lies in (0, 1] |
| LexicalReduce.ExampleTable | src/edu/jhu/thrax/hadoop/features/LexicalProbability.java:44-59 | the sentence pair `le` / `the this` with links 0-0 and 0-1 gives the table `(le, the) 1, (le, this) 1, (le, /MARGINAL/) 2` |
| LexicalReduce.ExampleConserves | src/edu/jhu/thrax/hadoop/features/LexicalProbability.java:44-59 | that table conserves and holds only positive counts |
| LexicalReduce.ExampleDescribed | src/edu/jhu/thrax/hadoop/features/LexicalProbability.java:112-128 | the sorted groups `(le, /MARGINAL/) [2]`, `(le, the) [1]`, `(le, this) [1]` describe that table |
| LexicalReduce.ExampleEmissions | src/edu/jhu/thrax/hadoop/features/LexicalProbability.java:112-128 | on that input the reducer writes the ratio 1/2 for `(le, the)` and for `(le, this)`, and the end-to-end bound applies to it |
| LexicalReduce.CorrectedRunAgrees | src/edu/jhu/thrax/hadoop/features/LexicalProbability.java:112-128 | once `current` holds a word, the reducer with an optional `current` emits exactly what the original reducer emits from the same fields |
| LexicalReduce.CorrectedStep | src/edu/jhu/thrax/hadoop/features/LexicalProbability.java:112-128 | the corrected `reduce` call writes exactly when `current` is set to the anchor, and otherwise changes the fields only on a marginal group, setting `current` to its anchor |
| LexicalReduce.CorrectedRun | src/edu/jhu/thrax/hadoop/features/LexicalProbability.java:112-128 | the corrected reducer writes at most one ratio per group |
| LexicalReduce.CorrectedRunKeys | src/edu/jhu/thrax/hadoop/features/LexicalProbability.java:112-128 | every key the corrected reducer writes is the key of one of its input groups |
| LexicalReduce.CorrectedActsAsOther | src/edu/jhu/thrax/hadoop/features/LexicalProbability.java:109-118 | with `current` unset, the corrected reducer writes what the original writes from any `current` other than the first anchor |
| LexicalReduce.CorrectedFirstMarginal | src/edu/jhu/thrax/hadoop/features/LexicalProbability.java:112-118 | with `current` unset, the first marginal group sets `current` and the denominator whatever the anchor, the empty word included |
| LexicalReduce.OriginalFirstMarginal | src/edu/jhu/thrax/hadoop/features/LexicalProbability.java:112-118 | from a `current` other than the first anchor, the original reducer's first marginal group sets `current` and the denominator in the same way |
| LexicalReduce.CorrectedRunBlocks | src/edu/jhu/thrax/hadoop/features/LexicalProbability.java:112-128 | on sorted blocks, with no condition on the first anchor, the corrected reducer emits one ratio per detail group, its count over its anchor's marginal |
| LexicalReduce.CorrectedCorpusRatiosInUnitInterval | src/edu/jhu/thrax/hadoop/features/LexicalProbability.java:112-128 | end to end for the corrected reducer: conserving sentence tables delivered anchor by anchor give ratios in (0, 1], whatever the first anchor |
| LexicalReduce.CorrectedEmptyFirstAnchor | src/edu/jhu/thrax/hadoop/features/LexicalProbability.java:109-127 | the empty-side block that the original divides by 0 gives the corrected reducer the single ratio 1/1 for its unaligned partner |
| LexicalProbability.WriteCounts | src/edu/jhu/thrax/hadoop/features/LexicalProbability.java:62-64 | the records written hold every entry of the table exactly once, each with its count |
| LexicalProbability.ListsDetermine | src/edu/jhu/thrax/hadoop/features/LexicalProbability.java:62-64 | such a listing has one record per table entry, and the records determine the table |
| LexicalProbability.TargetGivenSourceMap.constructor | src/edu/jhu/thrax/hadoop/features/LexicalProbability.java:34 | a new mapper's `counts` is empty |
| LexicalProbability.TargetGivenSourceMap.CountLinks | src/edu/jhu/thrax/hadoop/features/LexicalProbability.java:48-52 | the loop over `f2e[i]` adds one to `(source word, target[x])` for each listed `x` |
| LexicalProbability.TargetGivenSourceMap.CountPosition | src/edu/jhu/thrax/hadoop/features/LexicalProbability.java:45-59 | a position adds its links and their number as the marginal when aligned, and `/UNALIGNED/` plus a marginal of 1 otherwise |
| LexicalProbability.TargetGivenSourceMap.Map | src/edu/jhu/thrax/hadoop/features/LexicalProbability.java:35-65 | whatever `counts` held before, it ends as the sentence's own target-given-source table, and the records written list that table exactly once per key |
| LexicalProbability.SourceGivenTargetMap.constructor | src/edu/jhu/thrax/hadoop/features/LexicalProbability.java:70 | a new mapper's `counts` is empty |
| LexicalProbability.SourceGivenTargetMap.CountLinks | src/edu/jhu/thrax/hadoop/features/LexicalProbability.java:85-89 | the loop over `e2f[i]` adds one to `(target word, source[x])` for each listed `x` |
| LexicalProbability.SourceGivenTargetMap.CountPosition | src/edu/jhu/thrax/hadoop/features/LexicalProbability.java:83-98 | the mirror of the target-given-source position step |
| LexicalProbability.SourceGivenTargetMap.Map | src/edu/jhu/thrax/hadoop/features/LexicalProbability.java:72-104 | `counts` ends as the sentence's source-given-target table, i.e. the target-given-source table of the inverse alignment, and every entry is written once |
| LexicalProbability.Reduce.constructor | src/edu/jhu/thrax/hadoop/features/LexicalProbability.java:109-110 | the reducer starts with `current` empty and `marginalCount` 0 |
| LexicalProbability.Reduce.Reduce | src/edu/jhu/thrax/hadoop/features/LexicalProbability.java:112-128 | each call makes one step of the reducer state machine. A non-marginal group of a new anchor is dropped and changes nothing. A marginal group of a new anchor makes it current with the group's sum as the marginal, and emits nothing. A group of the current anchor emits its sum over the marginal |
| LexicalProbability.JavaRemainder | src/edu/jhu/thrax/hadoop/features/LexicalProbability.java:135 | Java's `%` by a positive divisor lies strictly between `-n` and `n`, takes the sign of the dividend, and differs from the dividend by a multiple of `n` (the identity `(a/n)*n + a%n == a` of section 15.17.3 of the Java Language Specification) |
| LexicalProbability.SameAnchorSamePartition | src/edu/jhu/thrax/hadoop/features/LexicalProbability.java:133-136 | keys with the same anchor word, including that anchor's marginal key, go to the same partition |
| LexicalProbability.PartitionRange | src/edu/jhu/thrax/hadoop/features/LexicalProbability.java:133-136 | the partition lies strictly between `-numPartitions` and `numPartitions`, and is negative only for a negative hash |
| LexicalProbability.NegativeHashGivesNegativePartition | src/edu/jhu/thrax/hadoop/features/LexicalProbability.java:135 | a word hashing to -1, with two partitions, is sent to partition -1 |
| LexicalProbability.GetPartition | src/edu/jhu/thrax/hadoop/features/LexicalProbability.java:133-136 | the partition is Java's remainder of the anchor's hash: strictly between `-numPartitions` and `numPartitions` and congruent to the hash modulo `numPartitions` |
| LexicalProbability.ClearSignBit | src/edu/jhu/thrax/hadoop/features/LexicalProbability.java:135 | masking with `Integer.MAX_VALUE` gives a value in [0, 2^31) that is congruent to the hash modulo 2^31 |
| LexicalProbability.CorrectedPartition | src/edu/jhu/thrax/hadoop/features/LexicalProbability.java:133-136 | the masked partition always names a reducer, and equals the original one for a non-negative hash |
| LexicalProbability.CorrectedPartitionInRange | src/edu/jhu/thrax/hadoop/features/LexicalProbability.java:133-136 | the masked partition is always in [0, numPartitions), keeps each anchor's keys together, and agrees with the original partition on non-negative hashes |
| Scheduling.Scheduler.constructor | src/edu/jhu/thrax/hadoop/jobs/Scheduler.java:11-14 | a new scheduler has no jobs, and its prerequisite graph is acyclic |
| Scheduling.Scheduler.ReachFromMembers | src/edu/jhu/thrax/hadoop/jobs/Scheduler.java:27-29 | a job is reachable from a set of prerequisites exactly when it is reachable from one of them |
| Scheduling.Scheduler.ReachBelow | src/edu/jhu/thrax/hadoop/jobs/Scheduler.java:27-29 | every job reached from `j` ranks no higher than `j`, so the recursion cannot return to `j` |
| Scheduling.Scheduler.ReachClosed | src/edu/jhu/thrax/hadoop/jobs/Scheduler.java:27-29 | the set of jobs reached from `j` holds every prerequisite of each of its members |
| Scheduling.Scheduler.ReachRegistered | src/edu/jhu/thrax/hadoop/jobs/Scheduler.java:18-19 | because the registered jobs are closed under prerequisites, everything a registered job reaches is already registered |
| Scheduling.Scheduler.Schedule | src/edu/jhu/thrax/hadoop/jobs/Scheduler.java:16-35 | returns true exactly when `j` was not registered. On false, nothing changes. Afterwards the registered jobs are the earlier ones plus everything `j` reaches. Earlier jobs keep their states. Each new job is `Ready` without prerequisites and `Waiting` with some. The registered jobs stay closed under prerequisites |
| Scheduling.Scheduler.RegisterPrerequisites | src/edu/jhu/thrax/hadoop/jobs/Scheduler.java:27-29 | scheduling each prerequisite in turn registers exactly what the prerequisites reach, never `j` itself, and leaves earlier states alone |
| Scheduling.Scheduler.SetState | src/edu/jhu/thrax/hadoop/jobs/Scheduler.java:37-44 | on a registered job, overwrites that one entry and returns true; on any other job, returns false and changes nothing |
| Scheduling.Scheduler.GetState | src/edu/jhu/thrax/hadoop/jobs/Scheduler.java:46-49 | returns the stored state of a registered job, and `None` (Java's `null`) for any other |
| Scheduling.Scheduler.IsScheduled | src/edu/jhu/thrax/hadoop/jobs/Scheduler.java:51-54 | holds exactly when the job is a key of the table, that is, exactly when `GetState` is not `None` |
| Scheduling.Scheduler.GetClassesByState | src/edu/jhu/thrax/hadoop/jobs/Scheduler.java:56-64 | returns exactly the registered jobs whose state is the given one |
| Scheduling.Scheduler.NotFinished | src/edu/jhu/thrax/hadoop/jobs/Scheduler.java:66-76 | true exactly when some registered job is `Ready`, `Waiting` or `Running` |
| GlueRuleFeature.Scored | src/edu/jhu/thrax/hadoop/features/GlueRuleFeature.java:17-30 | after scoring, the label holds 1 for a glue rule and 0 otherwise, no key is lost, and every other key keeps its value |
| GlueRuleFeature.ScoredOverrides | src/edu/jhu/thrax/hadoop/features/GlueRuleFeature.java:17-30 | a later scoring overrides an earlier one, so each scoring method is idempotent |
| GlueRuleFeature.ScoredFrame | src/edu/jhu/thrax/hadoop/features/GlueRuleFeature.java:17-30 | the label is the only key scoring can add or change |
| GlueRuleFeature.Score | src/edu/jhu/thrax/hadoop/features/GlueRuleFeature.java:17-20 | `score` writes 0 under the label, whatever the rule, and changes nothing else |
| GlueRuleFeature.UnaryGlueRuleScore | src/edu/jhu/thrax/hadoop/features/GlueRuleFeature.java:22-25 | writes 1 under the label, whatever the nonterminal, and changes nothing else |
| GlueRuleFeature.BinaryGlueRuleScore | src/edu/jhu/thrax/hadoop/features/GlueRuleFeature.java:27-30 | writes 1 under the label, whatever the nonterminal, and changes nothing else |

## Left out

- LexicalCounts.TableConserves: requires that no partner word is spelled `/MARGINAL/`. Such a corpus word lands on the anchor's marginal key, and the detail counts then fall short of the marginal (`MarginalTokenBreaksConservation`).
- LexicalReduce.CorpusRatiosInUnitInterval: requires the first anchor not to be the empty word. In the running job a sentence pair with an empty target side (the anchor side of the installed `SourceGivenTargetMap`), or an empty source side under `TargetGivenSourceMap`, breaks this precondition: `"".trim().split("\\s+")` is `[""]`, so its one anchor is the empty word, which sorts first and equals the initial `current`.
- LexicalReduce.EmittedRatiosInUnitInterval: requires, through `SortedBlocks`, the first anchor not to be the empty word, which the sort does not guarantee; an empty anchor side breaks it as for `CorpusRatiosInUnitInterval`.
- The reducer writes `-1 * Math.log(count / (double) marginal)`. The model emits the rational `Ratio(count, marginal)` instead, because floating point is not modelled. A ratio in (0, 1] is exactly a non-negative `-ln`.
- Splitting the input line on the field delimiter and on white space, and `trim`, are not modelled. The mappers take the two token sequences and the alignment already parsed.
- The `Alignment` class the mappers construct is not part of this model. Its `f2e`, `e2f` and `sourceIsAligned`/`targetIsAligned` are derived from a link list. The order of `f2e[i]` follows the listed links.
- `ArrayAlignment` is not part of this model. Its behaviour is fixed by the tests. The model's `FromString` reads only the `"s-t s-t"` form with the flag `false`. A malformed string gives `None`.
- `TargetGivenSourceMap.Map`: requires every link from a source position of the sentence to land inside the target sentence. Otherwise `target[x]` in Java throws `ArrayIndexOutOfBoundsException`, and the model does not describe the exception.
- `SourceGivenTargetMap.Map`: requires every link into a target position of the sentence to start inside the source sentence, for the same reason.
- The order in which `counts.keySet()` is iterated is unspecified: `WriteCounts` picks keys in any order. Writes to the Hadoop `Context` are returned as a sequence.
- `TextPair.MarginalComparator` (the sort) and `IntSumReducer` (the combiner) are not part of this model. The sort order the reducer relies on is a precondition of the reducer lemmas: anchors contiguous and each anchor's marginal group first; `EmittedRatiosInUnitInterval` and `CorpusRatiosInUnitInterval` also require the first anchor not to be the empty word. Summing values across sentences is `CorpusTable`.
- `Text.hashCode()` is a parameter of the partitioner, a function from words to 32-bit integers.
- `getJob` and `main` only set up and submit the Hadoop job. Note that `getJob` installs only `SourceGivenTargetMap`.
- Counts and `marginalCount` are unbounded naturals, so Java `int` overflow is not modelled.
- The reducer silently drops a non-marginal group of a new anchor. A stricter reducer would reject such a group as an anchor without a marginal; the model follows the code.
- `Scheduling.Scheduler.Schedule`: requires an acyclic prerequisite graph, witnessed by a rank that decreases along every prerequisite edge. On a cycle the Java recursion overflows the stack (`StackOverflowError`) instead of reporting a configuration error; the `catch (Exception e)` around `newInstance` does not catch an `Error`. The model requires a rank instead.
- `jobClass.newInstance()` reflection and its `SchedulerException` are not modelled. A job's prerequisites are a given function of its class.
- The `JobState` enum is not part of this model. The model uses `Waiting`, `Ready`, `Running`, `Finished` and `Failed`. An unregistered job has no state (`None`) rather than a `NOT_SCHEDULED` value. Java's `setState` also accepts `null`, after which `isScheduled` holds, `getState` returns `null`, and `getClassesByState` and `notFinished` throw `NullPointerException`; the model's `JobState` has no null.
- Feature values other than integers are represented by `OtherWritable`, since only `IntWritable` is written here. The rule and the nonterminal are unused, so the rule's type is a type parameter.
- The Hadoop runtime (distribution, concurrency, partition scheduling) is not modelled.
- `RarityPenaltyFeature`, `Feature`, the Hiero and SAMT extractor stubs, `SequenceToSignatures` and `ExtractionTool` are not modelled: they are a single floating-point `exp`, Hadoop wiring, empty stubs, and command-line/file I/O.

## Findings

| source | as written | input that shows it | evidently intended | confidence | as-written member | corrected member |
|---|---|---|---|---|---|---|
| src/edu/jhu/thrax/hadoop/features/LexicalProbability.java:135 | `key.fst.hashCode() % numPartitions` keeps the sign of the hash, because Java's `%` truncates toward zero | a word whose hash is -1, with 2 partitions, gets partition -1, which names no reducer | a partition in `[0, numPartitions)`, e.g. `(hashCode() & Integer.MAX_VALUE) % numPartitions` as Hadoop's own hash partitioner does | high that negative hashes give negative partitions; not executed | LexicalProbability.NegativeHashGivesNegativePartition | LexicalProbability.CorrectedPartitionInRange |
| src/edu/jhu/thrax/hadoop/features/LexicalProbability.java:109-118 | `current` starts as `new Text()`, the empty string, and `reduce` treats a key whose anchor equals `current` as a detail of the current anchor | a sentence pair with an empty target side (the anchor side of the installed `SourceGivenTargetMap`), or an empty source side under `TargetGivenSourceMap`: its anchor is the empty word (`EmptyTargetSideTable`), whose marginal and detail groups are both divided by the initial marginal 0, so the job writes `-ln(1/0)`, which is negative infinity | `current` unset until the first marginal group, so that any first anchor, the empty word included, starts a new block | high for an empty anchor side; not executed | LexicalReduce.EmptyFirstAnchorDividesByZero | LexicalReduce.CorrectedCorpusRatiosInUnitInterval |
