/** The drivers that connect the validator and the tracer: the last stage of
    one year's topic extraction, and the whole timeline run, which extracts the
    topics of 2000..2018 and then traces them in merge mode with no report. */
module Pipeline {
  import opened Sequences
  import opened TraceSpec
  import opened TopicOverlap
  import opened TracingMerge

  /** The outcome of one year's extraction. The checks run in the order keyword
      check (topic by topic), topic count, coverage; the first failure wins. */
  function ExtractOutcome(its: seq<Iteration>, k: int, cs: seq<set<Keyword>>): (r: Outcome)
    ensures r == Pass <==>
              (forall n :: 0 <= n < |cs| ==> KeywordCheck(its, cs[n]) == Pass)
              && |cs| <= k && TotalNodes(its) == TotalSize(cs)
    ensures (exists n :: 0 <= n < |cs| && KeywordCheck(its, cs[n]).Fail?) ==>
              r.Fail? && (r.error == TopicMalFormed || r.error == MissingKey(SeedLabel))
    ensures r == Fail(TopicTooMany) <==>
              (forall n :: 0 <= n < |cs| ==> KeywordCheck(its, cs[n]) == Pass) && |cs| > k
    ensures r == Fail(TopicNotAllKeywordsUsed) <==>
              (forall n :: 0 <= n < |cs| ==> KeywordCheck(its, cs[n]) == Pass)
              && |cs| <= k && TotalNodes(its) != TotalSize(cs)
  {
    var j := AcceptedPrefix(its, cs);
    if j < |cs| then KeywordCheck(its, cs[j])
    else if |cs| > k then Fail(TopicTooMany)
    else if TotalNodes(its) != TotalSize(cs) then Fail(TopicNotAllKeywordsUsed)
    else Pass
  }

  /** One year's validation: the node list, the communities checked and listed,
      the count check, the coverage check. On success `topics` lists the
      communities in order; on failure nothing is returned. */
  method ExtractTopics(its: seq<Iteration>, k: int, communities: seq<set<Keyword>>)
    returns (r: Outcome, topics: seq<Topic>)
    ensures r == ExtractOutcome(its, k, communities)
    ensures r == Pass ==> ListsOf(topics, communities) && NonEmptyTopics(topics)
    ensures r.Fail? ==> topics == []
  {
    var ovTop := new OverlapTopics(its, k);
    ovTop.OverlapPreprocessing();
    ghost var added;
    r, added := ovTop.CliquePercolationMethod(communities);
    topics := [];
    if r.Fail? {
      return;
    }
    assert communities[..|communities|] == communities;
    assert ovTop.topics == added;
    r := ovTop.CheckNumberTopics();
    if r.Fail? {
      return;
    }
    ListsOfLength(added, communities);
    r := ovTop.CheckSpreadTopics();
    if r.Fail? {
      return;
    }
    topics := ovTop.GetTopics();
    ListedSeededAreNonEmpty(its, topics, communities);
  }

  /** Accepted communities hold a seed, so their lists are not empty. */
  lemma ListedSeededAreNonEmpty(its: seq<Iteration>, ts: seq<Topic>, cs: seq<set<Keyword>>)
    requires ListsOf(ts, cs)
    requires forall n :: 0 <= n < |cs| ==> KeywordCheck(its, cs[n]) == Pass
    ensures NonEmptyTopics(ts)
  {
    forall n | 0 <= n < |ts| ensures |ts[n]| > 0 {
      assert KeywordCheck(its, cs[n]) == Pass;
      var kw :| kw in cs[n] && kw in Lookup(its, SeedLabel).value;
      assert kw in KeySet(ts[n]);
    }
  }

  /** The inputs of one year's extraction. */
  datatype YearInput = YearInput(influenced: seq<Iteration>, communities: seq<set<Keyword>>)

  /** `d` holds the listed communities of the first `n` years of the timeline. */
  ghost predicate ExtractedYears(d: TopicMap, years: seq<YearInput>, n: int)
    requires |years| == LastYear - FirstYear + 1
  {
    && 0 <= n <= |years|
    && (forall y :: y in d <==> FirstYear <= y < FirstYear + n)
    && (forall y :: y in d ==> ListsOf(d[y], years[y - FirstYear].communities) && NonEmptyTopics(d[y]))
  }

  /** The extractions of the first `n` years all pass. */
  predicate PassedBefore(years: seq<YearInput>, k: int, n: int)
    requires n <= |years|
  {
    forall m :: 0 <= m < n ==> ExtractOutcome(years[m].influenced, k, years[m].communities) == Pass
  }

  /** `r` is the outcome of the first year whose extraction fails. */
  ghost predicate FirstFailure(years: seq<YearInput>, k: int, r: Outcome)
  {
    exists n :: 0 <= n < |years| && r == ExtractOutcome(years[n].influenced, k, years[n].communities)
                && r.Fail? && PassedBefore(years, k, n)
  }

  /** The yearly extractions, 2000 first, with `k` topics asked for each year.
      The first year whose extraction fails ends the loop with its error. */
  method ExtractAllYears(years: seq<YearInput>, k: int) returns (r: Outcome, d: TopicMap)
    requires |years| == LastYear - FirstYear + 1
    ensures r == Pass <==> PassedBefore(years, k, |years|)
    ensures r.Fail? ==> FirstFailure(years, k, r)
    ensures r == Pass ==> ExtractedYears(d, years, |years|)
  {
    d := map[];
    r := Pass;
    var n := 0;
    while n < |years|
      invariant 0 <= n <= |years|
      invariant r == Pass && PassedBefore(years, k, n)
      invariant ExtractedYears(d, years, n)
    {
      var topics;
      r, topics := ExtractTopics(years[n].influenced, k, years[n].communities);
      if r.Fail? {
        assert !PassedBefore(years, k, |years|) by {
          assert ExtractOutcome(years[n].influenced, k, years[n].communities) != Pass;
        }
        assert FirstFailure(years, k, r);
        return;
      }
      ExtractedOneMore(d, years, n, topics);
      d := d[FirstYear + n := topics];
      n := n + 1;
    }
  }

  /** Filling in the next year keeps the record of the years extracted so far. */
  lemma ExtractedOneMore(d: TopicMap, years: seq<YearInput>, n: int, topics: seq<Topic>)
    requires |years| == LastYear - FirstYear + 1
    requires ExtractedYears(d, years, n) && n < |years|
    requires ListsOf(topics, years[n].communities) && NonEmptyTopics(topics)
    ensures ExtractedYears(d[FirstYear + n := topics], years, n + 1)
  {
  }

  /** The whole timeline: the topics of every year are extracted, then traced
      with merging and no report (mode 2). */
  method Timeline(years: seq<YearInput>, k: int)
    returns (r: Outcome, macroTopics: seq<Topic>, d: TopicMap, ghost emitted: seq<Topic>)
    requires |years| == LastYear - FirstYear + 1
    ensures r == Pass <==> PassedBefore(years, k, |years|)
    ensures r.Fail? ==> FirstFailure(years, k, r)
    ensures r == Pass ==> ValidTimeline(d) && ExtractedYears(d, years, |years|)
    ensures r == Pass ==> EmittedFor(d, emitted, true) && macroTopics == DropSubsumed(emitted + d[LastYear])
  {
    emitted := [];
    macroTopics := [];
    r, d := ExtractAllYears(years, k);
    if r.Fail? {
      return;
    }
    ExtractedIsValid(d, years, FirstYear);
    macroTopics, emitted := TraceExtracted(d);
  }

  /** The tracing stage: a fresh tracer over the extracted map, run in merge
      mode with no report; its macro-topics are the result. */
  method TraceExtracted(d: TopicMap) returns (macroTopics: seq<Topic>, ghost emitted: seq<Topic>)
    requires ValidTimeline(d)
    ensures EmittedFor(d, emitted, true)
    ensures macroTopics == DropSubsumed(emitted + d[LastYear])
  {
    var tracer := new TraceMergeTimeline(d);
    var ok;
    ok, emitted := tracer.TraceTimeline(2, true);
    assert [] + emitted == emitted;
    macroTopics := tracer.GetTopicsTimeline();
  }

  /** A map filled for every year with non-empty topics is a valid timeline. */
  lemma {:induction false} ExtractedIsValid(d: TopicMap, years: seq<YearInput>, y: int)
    requires |years| == LastYear - FirstYear + 1
    requires ExtractedYears(d, years, |years|) && FirstYear <= y
    ensures YearsFrom(d, y) && ValidFrom(d, y)
    ensures y == FirstYear ==> ValidTimeline(d)
    decreases LastYear + 1 - y
  {
    if y <= LastYear {
      ExtractedIsValid(d, years, y + 1);
      assert y in d;
    }
  }
}
