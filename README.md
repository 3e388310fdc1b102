# Evolving topics: topic validation and timeline tracing

This project models two parts of *mining_evolving_topics*, together with the drivers that connect them.

- **Topic validation for one year** (`OverlapTopics`). A spread-of-influence run produces a map from iteration label to the keywords reached in that iteration. The clique percolation method finds communities on the subgraph those keywords induce. The validator accepts the communities as that year's topics only if:
  - every community contains a keyword of `'iteration 0'`;
  - there are at most `k` of them;
  - their sizes add up to the number of influenced keywords.
- **Timeline tracing** (`TraceMergeTimeline`). For every topic of 2000..2017, the tracer scans each later year up to 2018, in year order. In each year it records the first topic similar to the target. Two topics are similar when at least half of the keywords of one occur in the other. The recorded buffer becomes a macro-topic: the target's keywords, plus, when merging, those of the matches that continue the years `Y+1`, `Y+2`, … without a gap. In merge mode, the 2018 topics are then appended, and one pass removes every macro-topic whose keyword set lies strictly inside another's.
- **Drivers** (`T1`, `T2` in `main.py`). One year's extraction finishes with the validator calls, in a fixed order. The timeline run extracts the 19 years and runs the tracer in merge mode with no report (mode 2). The drivers use the corrected count check of the Findings section: a year with more than `k` topics fails with `TopicTooMany`, where the code as written raises `NameError`.

Modules:

- `Sequences`: the list operations the code relies on, on Dafny sequences: `set(l)`, `l.remove(x)`, `list(s)`, and an option type.
- `TraceSpec`: what tracing computes, as functions, with lemmas about them:
  - similarity;
  - the first-match trace;
  - absorption of the contiguous run;
  - the subsumption filter;
  - the order of targets.
- `TracingMerge`: class `TraceMergeTimeline`. Its fields are the year map, the traced-topics buffer and the macro-topic list. Every method is proved against `TraceSpec`.
- `TopicOverlap`: class `OverlapTopics`, plus the functions that state what each check decides.
- `Pipeline`: the one-year extraction and the timeline run.

Three facts about the removal pass and the output modes follow from the code:

- **Equal keyword sets.** Equality alone never causes a removal: the test at `tracing_merge.py:162` needs a strictly smaller set. Entries with equal keyword sets are kept or removed together. For example, both copies of `["a"]` in `[["a"], ["a"], ["a","b"]]` are removed, because `["a","b"]` strictly contains them. Proved in `TraceSpec.DropSubsumedOutcome`.
- **Nested chains.** One pass leaves no strictly nested pair, even for chains `A ⊂ B ⊂ C`, so it already reaches the fixed point (`TraceSpec.DropSubsumedIsFinal`). A maximal superset is never removed, so every strictly contained entry still finds a live superset. This matches the docstring at `tracing_merge.py:144`: macro-topics included in other macro-topics are deleted.
- **Mode 2 and `merge`.** Mode 2 (`no_output`) absorbs whatever `merge` is (`tracing_merge.py:270-298`, 334-335). `main.py:142` calls it with `merge=True`.

## Model

| member | source | states |
|---|---|---|
| Sequences.ListOfSet | src/tracing_merge/tracing_merge.py:214 | `list(s)` lists exactly the keywords of `s`, each once, so the list is as long as the set |
| Sequences.RemoveFirst | src/tracing_merge/tracing_merge.py:164 | `l.remove(x)` is one element shorter and loses exactly one copy of `x` (multiset difference) |
| TraceSpec.FractionInUnitInterval | src/tracing_merge/tracing_merge.py:73-90 | the keyword fraction lies in [0, 1] |
| TraceSpec.FractionOfItself | src/tracing_merge/tracing_merge.py:73-90 | a topic's fraction in itself is 1 |
| TraceSpec.CountInContained | src/tracing_merge/tracing_merge.py:87-89 | when every keyword of `a` is in `b`, all positions of `a` are counted |
| TraceSpec.FractionAtThreshold | src/tracing_merge/tracing_merge.py:94-113 | a fraction reaches the 0.5 threshold iff twice the count reaches the topic length |
| TraceSpec.SimilarIsThresholdTest | src/tracing_merge/tracing_merge.py:106-113 | the two-sided threshold test is the integer similarity predicate |
| TraceSpec.SimilarIsSymmetric | src/tracing_merge/tracing_merge.py:106-113 | similarity is symmetric |
| TraceSpec.FractionIsNotSymmetric | src/tracing_merge/tracing_merge.py:108-110 | the containment fraction is not symmetric: all of `[a]` lies in `[a,b]` (fraction 1), but only half of `[a,b]` lies in `[a]` (fraction 0.5) |
| TraceSpec.FirstSimilarIsFirst | src/tracing_merge/tracing_merge.py:365-368 | the scan of one year finds nothing iff no topic of the year is similar; otherwise it finds a similar topic with no similar topic before it in list order |
| TraceSpec.TraceSplit | src/tracing_merge/tracing_merge.py:364-368 | scanning years `a`..`b-1` and then `b`..2018 gives the buffer of scanning `a`..2018 |
| TraceSpec.TraceYearsIncrease | src/tracing_merge/tracing_merge.py:364-368 | the buffer's years lie after the target's year, up to 2018, and strictly increase: at most one match per year |
| TraceSpec.TraceEntriesAreFirstMatches | src/tracing_merge/tracing_merge.py:364-368 | every buffer entry is the first topic of its year similar to the target |
| TraceSpec.TraceCoversMatchingYears | src/tracing_merge/tracing_merge.py:364-368 | every later year that has a topic similar to the target has its first match in the buffer |
| TraceSpec.RunLength | src/tracing_merge/tracing_merge.py:293-296 | the length of the longest prefix whose years run `start`, `start+1`, …; the next entry breaks the run |
| TraceSpec.NothingExpected | src/tracing_merge/tracing_merge.py:293-296 | when no entry has the expected year, nothing is absorbed |
| TraceSpec.AbsorbedIsUnbrokenRun | src/tracing_merge/tracing_merge.py:293-296 | on a buffer with increasing years, the union loop absorbs exactly the unbroken run from `Y+1`; a gap stops absorption for good |
| TraceSpec.MacroSetIsTargetPlusRun | src/tracing_merge/tracing_merge.py:287-298 | a macro-topic contains its target. It is the target alone when nothing was traced or absorption is off; otherwise it is the target plus the contiguous run of matches |
| TraceSpec.EntryForIsMacroSet | src/tracing_merge/tracing_merge.py:287-298 | every macro-topic recorded for a target has the keyword set `MacroSet` describes, so the run property above applies to each entry of the timeline |
| TraceSpec.LastTargetIsLastOfTargets | src/tracing_merge/tracing_merge.py:397-399 | the last target visited before year `y` is the last of the targets in visiting order, and there is none iff no target was visited |
| TraceSpec.TargetsBeforeAreTopics | src/tracing_merge/tracing_merge.py:397-399 | the targets visited before year `y` are exactly the topics of 2000..`y-1`, each paired with its year |
| TraceSpec.EmittedForConcat | src/tracing_merge/tracing_merge.py:397-399 | macro-topic records for two target lists join into the record for their concatenation |
| TraceSpec.KeepMaximalMembers | src/tracing_merge/tracing_merge.py:153-167 | an entry survives the filter iff no entry strictly contains its keyword set, and a survivor keeps all its copies |
| TraceSpec.KeepMaximalIsSubsequence | src/tracing_merge/tracing_merge.py:153-167 | the filter only deletes entries and keeps the order |
| TraceSpec.SubsequenceOfTail | src/tracing_merge/tracing_merge.py:153-167 | a subsequence of the tail is a subsequence of the list |
| TraceSpec.DropSubsumedOutcome | src/tracing_merge/tracing_merge.py:153-167 | the removal pass deletes exactly the strictly contained macro-topics, keeps the order, and keeps or drops equal-set entries together |
| TraceSpec.DropSubsumedIsFinal | src/tracing_merge/tracing_merge.py:153-167 | after the pass no macro-topic lies strictly inside another, and a second pass changes nothing |
| TraceSpec.KeepAllMaximal | src/tracing_merge/tracing_merge.py:153-167 | a list with nothing strictly contained is left unchanged |
| TraceSpec.DropSubsumedExample | src/tracing_merge/tracing_merge.py:153-167 | `[[a,b],[a,b,c]]` keeps `[a,b,c]` only |
| TraceSpec.SelectAllLive | src/tracing_merge/tracing_merge.py:154 | the copy taken before the pass is the live list with nothing removed |
| TraceSpec.InSelect | src/tracing_merge/tracing_merge.py:163 | `topic in macro_topics` on the live list holds iff some live position of the copy holds the topic |
| TraceSpec.FirstLive | src/tracing_merge/tracing_merge.py:164 | the first live copy of a topic is the one `remove` deletes |
| TraceSpec.RemoveFirstLive | src/tracing_merge/tracing_merge.py:164 | `remove` on the live list clears exactly the first live copy |
| TraceSpec.SelectMaximal | src/tracing_merge/tracing_merge.py:153-167 | when exactly the non-contained entries are live, the live list is the filter's result |
| TraceSpec.MaxCard | src/tracing_merge/tracing_merge.py:161-162 | no macro-topic has more distinct keywords than this bound |
| TraceSpec.MaximalAbove | src/tracing_merge/tracing_merge.py:155-164 | a strictly contained macro-topic lies inside one that is itself not contained, so the pass can always remove it |
| TracingMerge.TraceMergeTimeline.constructor | src/tracing_merge/tracing_merge.py:49-69 | the tracer starts with the given year map, an empty buffer and no macro-topics |
| TracingMerge.TraceMergeTimeline.KeywordsFraction | src/tracing_merge/tracing_merge.py:73-90 | the counting loop computes the fraction of `topic1`'s keywords found in `topic2`; it lies in [0, 1] and is 1 on equal topics |
| TracingMerge.TraceMergeTimeline.ThresholdSimilarityTwoTopics | src/tracing_merge/tracing_merge.py:94-113 | true iff either fraction reaches 0.5, which is the similarity predicate |
| TracingMerge.TraceMergeTimeline.SimilarityTwoTopics | src/tracing_merge/tracing_merge.py:117-138 | returns similarity, and appends `(year, topic2)` to the buffer exactly when similar |
| TracingMerge.TraceMergeTimeline.CheckDuplicateTopic | src/tracing_merge/tracing_merge.py:142-167 | in merge mode the list becomes the subsumption filter of the old list; otherwise it is unchanged |
| TracingMerge.TraceMergeTimeline.RemoveInsideOthers | src/tracing_merge/tracing_merge.py:155-167 | one turn of the outer loop removes `tmp[i]` if it is strictly contained in another entry, and removes nothing that is not; it only removes, so nothing removed comes back |
| TracingMerge.TraceMergeTimeline.ClearOne | src/tracing_merge/tracing_merge.py:164 | removing a strictly contained entry keeps the facts about which entries are still live |
| TracingMerge.TraceMergeTimeline.RemovalStep | src/tracing_merge/tracing_merge.py:161-164 | a removal happens only for a strictly contained topic that is still in the list |
| TracingMerge.TraceMergeTimeline.MergeTrace | src/tracing_merge/tracing_merge.py:287-298 | appends one macro-topic: the target when the buffer is empty; otherwise a duplicate-free list of the target's keywords, plus the contiguous run's keywords when absorbing |
| TracingMerge.TraceMergeTimeline.PrintTrace | src/tracing_merge/tracing_merge.py:171-214 | mode 0: appends the macro-topic, absorbing only when `merge` holds |
| TracingMerge.TraceMergeTimeline.WriteTrace | src/tracing_merge/tracing_merge.py:218-266 | mode 1: the same macro-topic as mode 0 |
| TracingMerge.TraceMergeTimeline.NoOutput | src/tracing_merge/tracing_merge.py:270-298 | mode 2: appends the macro-topic and always absorbs |
| TracingMerge.TraceMergeTimeline.ResultHandling | src/tracing_merge/tracing_merge.py:302-335 | for modes 0..2 appends exactly one macro-topic (absorbing iff `merge` or mode 2); any other mode leaves the list unchanged |
| TracingMerge.TraceMergeTimeline.StudyBehaviourDifferentYears | src/tracing_merge/tracing_merge.py:339-371 | resets the buffer, which then holds every later year's first match in year order; appends the macro-topic built from it |
| TracingMerge.TraceMergeTimeline.ScanYear | src/tracing_merge/tracing_merge.py:365-368 | scanning one year adds its first similar topic to the buffer, or nothing |
| TracingMerge.TraceMergeTimeline.TraceTimeline | src/tracing_merge/tracing_merge.py:375-405 | fails iff mode is outside 0..2, and then changes nothing. Otherwise it appends one macro-topic per topic of 2000..2017, in year and list order. In merge mode it adds the 2018 topics and applies the subsumption filter. The buffer holds the last target's trace |
| TracingMerge.TraceMergeTimeline.TraceAllYears | src/tracing_merge/tracing_merge.py:397-399 | the outer loop appends one macro-topic for each target of 2000..2017, in order |
| TracingMerge.TraceMergeTimeline.TraceYear | src/tracing_merge/tracing_merge.py:398-399 | the inner loop appends one macro-topic per topic of year `i`, in list order; the buffer is the last topic's trace |
| TracingMerge.TraceMergeTimeline.EmittedForYear | src/tracing_merge/tracing_merge.py:397-399 | after year `i` the record covers every target before year `i+1` |
| TracingMerge.TraceMergeTimeline.BufferAfterYear | src/tracing_merge/tracing_merge.py:397-399 | after year `i` the buffer is the trace of the last target so far |
| TracingMerge.TraceMergeTimeline.EmittedForNext | src/tracing_merge/tracing_merge.py:398-399 | one more traced target of year `i` extends the record by its macro-topic |
| TracingMerge.TraceMergeTimeline.AppendLastYear | src/tracing_merge/tracing_merge.py:401-403 | merge mode appends the 2018 topics unchanged, in order |
| TopicOverlap.Lookup | src/overlaps_topics/overlap_topics.py:116 | a dictionary lookup finds the list stored under the key, or fails iff no entry has that key |
| TopicOverlap.ConcatLength | src/overlaps_topics/overlap_topics.py:90-92 | the keyword list is as long as the sum of the iteration-list lengths that the coverage check counts |
| TopicOverlap.ConcatMembers | src/overlaps_topics/overlap_topics.py:90-94 | a keyword is in the subgraph's node list iff some iteration reached it: nothing from outside is added |
| TopicOverlap.KeywordCheck | src/overlaps_topics/overlap_topics.py:114-121 | passes iff `'iteration 0'` exists and holds a keyword of the topic. A missing key raises `KeyError` only for a non-empty topic. Any other failure is `TopicMalFormed` |
| TopicOverlap.AcceptedPrefix | src/overlaps_topics/overlap_topics.py:133-135 | the number of leading communities that pass the keyword check; the next one, if any, fails it |
| TopicOverlap.ListsOfLength | src/overlaps_topics/overlap_topics.py:135 | listing each community (`list(topic)`) keeps the total size |
| TopicOverlap.DistinctListSize | src/overlaps_topics/overlap_topics.py:155 | a duplicate-free list is as long as its keyword set |
| TopicOverlap.OverlapTopics.constructor | src/overlaps_topics/overlap_topics.py:48-65 | the validator starts with the influenced-node map, the topic budget `k` and no topics |
| TopicOverlap.OverlapTopics.OverlapPreprocessing | src/overlaps_topics/overlap_topics.py:83-94 | the subgraph's node list is the concatenation of every iteration's keywords, in the map's order |
| TopicOverlap.OverlapTopics.CheckKeywords | src/overlaps_topics/overlap_topics.py:98-121 | the flag loop decides what `KeywordCheck` states, and changes nothing |
| TopicOverlap.OverlapTopics.CliquePercolationMethod | src/overlaps_topics/overlap_topics.py:125-135 | every accepted community is appended, as a list, before the next is checked. It passes iff all communities pass. Otherwise it returns the first rejected community's error, and the earlier ones stay appended |
| TopicOverlap.OverlapTopics.CheckSpreadTopics | src/overlaps_topics/overlap_topics.py:139-158 | fails with `TopicNotAllKeywordsUsed` iff the topic lengths and the iteration-list lengths have different sums; topics unchanged |
| TopicOverlap.OverlapTopics.CheckNumberTopicsAsWritten | src/overlaps_topics/overlap_topics.py:162-173 | fails iff there are more than `k` topics (`k` topics pass), and the failure is a `NameError` |
| TopicOverlap.OverlapTopics.CheckNumberTopics | src/overlaps_topics/overlap_topics.py:162-173 | fails iff there are more than `k` topics, with `TopicTooMany` |
| TopicOverlap.CountCheckRaisesNameError | src/overlaps_topics/overlap_topics.py:172-173 | whenever the count check fails, the code as written raises `NameError`, not the intended `TopicTooMany` |
| Pipeline.ExtractOutcome | src/main.py:109-113 | one year passes iff every community has a seed keyword, there are at most `k`, and the sizes match. Failures take precedence in this order: keyword check, then count (the corrected `TopicTooMany`), then coverage |
| Pipeline.ExtractTopics | src/main.py:109-115 | the extraction's outcome is `ExtractOutcome`. On success the topics list the communities in order and none is empty; on failure nothing is returned |
| Pipeline.ListedSeededAreNonEmpty | src/main.py:109-115 | topics that passed the keyword check are not empty |
| Pipeline.ExtractAllYears | src/main.py:135-139 | passes iff every year's extraction passes, with the first failing year deciding the error. On success every year 2000..2018 maps to its listed communities |
| Pipeline.ExtractedOneMore | src/main.py:138-139 | storing the next year's topics keeps the record of years extracted so far |
| Pipeline.ExtractedIsValid | src/main.py:135-141 | a fully extracted map is a valid timeline for the tracer: all 19 years, no empty topic |
| Pipeline.TraceExtracted | src/main.py:141-144 | with merge and mode 2, the result is the subsumption filter of one always-absorbing macro-topic per target followed by the 2018 topics |
| Pipeline.Timeline | src/main.py:119-144 | the whole run succeeds iff every year passes, and otherwise returns the first failure. On success the year map is valid and the result is the filtered macro-topic list |

## Left out

- Reading datasets, building the co-citation graph, centrality metrics and the diffusion simulation are left out. They are foreign libraries (pandas, networkx, ndlib) with floating-point and random behaviour, so `Pipeline` takes their outputs as inputs: one year's influenced-node map and the community list.
- networkx `subgraph` and `k_clique_communities` are left out. The model keeps the node list handed to `subgraph` (`universe`), and takes the communities as an input sequence of keyword sets.
- The `year_graph` attribute and `get_ds1_graph` are not modelled. `overlap_exception.py` is not part of this model: the exception classes become the constructors of `TopicError`.
- Console printing, the trace log file and its path handling in `write_trace` are left out. They are I/O. `write_trace` is modelled only by the macro-topic it appends.
- TracingMerge.TraceMergeTimeline.TraceTimeline: its precondition requires all 19 years to be present and every topic to be non-empty. The code would raise `KeyError` on a missing year and divide by zero on an empty topic. These error paths are not modelled. `Pipeline.ExtractedIsValid` proves that every successful extraction meets the precondition.
- TracingMerge.TraceMergeTimeline.KeywordsFraction: the fraction is an exact rational (`real`), not an IEEE double. The threshold test is the exact integer comparison `2 * count >= len`.
- Year keys are the strings `str(year)` in the code and integers in the model.
- Sequences.ListOfSet: CPython's order for `list(set)` is an implementation detail. So the order of a merged macro-topic, or of a listed community, is left open. The contracts fix only its keywords and the absence of duplicates.
- The tracer's `k` and `tracing_save_path` constructor arguments are left out. They only name the log file of mode 1 (`tracing_merge.py:237-240`), and that file is not modelled.
- TracingMerge.TraceMergeTimeline.WriteTrace: the method always appends its macro-topic. The code, called with the default `tracing_save_path=None`, raises `TypeError` at `tracing_merge.py:237` before appending anything. That failure of mode 1 is not modelled.
- The validator's default `k=None` is left out: in Python 3, `len(topics) > None` would raise `TypeError`. `k` is an integer.
- Pipeline.ExtractOutcome: the drivers use the corrected count check (`TopicOverlap.OverlapTopics.CheckNumberTopics`, see Findings). So more than `k` topics gives `TopicTooMany`. The code as written (`main.py:111` calling `overlap_topics.py:173`) raises `NameError`; `TopicOverlap.CountCheckRaisesNameError` states that behaviour.
- The getters `get_topics` and `get_topics_timeline` are plain field reads, with no contract beyond their body.
- The influenced-node map's keys are taken as distinct, as dictionary keys are; the lookup returns the first entry with the key.
- The man pages, CLI parsing, the `test_k*` drivers, the sample analysis scripts and `utils.py` are left out. They are output and argument handling.

## Findings

| source | as written | input that shows it | evidently intended | confidence | as-written member | corrected member |
|---|---|---|---|---|---|---|
| src/overlaps_topics/overlap_topics.py:173 | raises the unqualified name `TopicTooManyException`, which is not in scope in the module (the exceptions are imported as `excpt`) | a year whose accepted communities outnumber `k`, for example one topic with `k = 0`: the `raise` fails with `NameError` | `raise excpt.TopicTooManyException(...)`, the documented error | not executed | TopicOverlap.CountCheckRaisesNameError | TopicOverlap.OverlapTopics.CheckNumberTopics |
