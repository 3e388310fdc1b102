/** The timeline tracer: for every topic of 2000..2017 it records, year by year,
    the first similar topic of each later year in a buffer, turns the buffer into
    a macro-topic, and in merge mode finishes with the 2018 topics and one pass
    that removes macro-topics strictly inside another. */
module TracingMerge {
  import opened Sequences
  import opened TraceSpec

  class TraceMergeTimeline {
    /** The year -> topics map; read, never changed. */
    const topicsDict: TopicMap
    /** `(year, topic)` records for the target being traced. */
    var tracedTopics: seq<Traced>
    /** The macro-topics found so far. */
    var macroTopicsTimeline: seq<Topic>

    constructor (topicsDict: TopicMap)
      ensures this.topicsDict == topicsDict
      ensures tracedTopics == [] && macroTopicsTimeline == []
    {
      this.topicsDict := topicsDict;
      tracedTopics := [];
      macroTopicsTimeline := [];
    }

    /** Fraction of the keywords of `topic1` that occur in `topic2`. */
    method KeywordsFraction(topic1: Topic, topic2: Topic) returns (r: real)
      requires |topic1| > 0
      ensures r == Fraction(topic1, topic2)
      ensures 0.0 <= r <= 1.0
      ensures topic1 == topic2 ==> r == 1.0
    {
      var count := 0;
      var n := 0;
      while n < |topic1|
        invariant 0 <= n <= |topic1|
        invariant count == CountIn(topic1[..n], topic2)
      {
        assert topic1[..n + 1][..n] == topic1[..n];
        if topic1[n] in topic2 {
          count := count + 1;
        }
        n := n + 1;
      }
      assert topic1[..n] == topic1;
      FractionInUnitInterval(topic1, topic2);
      if topic1 == topic2 {
        FractionOfItself(topic1);
      }
      r := count as real / |topic1| as real;
    }

    /** Whether at least half of either topic lies in the other. */
    method ThresholdSimilarityTwoTopics(topic1: Topic, topic2: Topic) returns (similar: bool)
      requires |topic1| > 0 && |topic2| > 0
      ensures similar <==> Fraction(topic1, topic2) >= Threshold || Fraction(topic2, topic1) >= Threshold
      ensures similar == Similar(topic1, topic2)
    {
      var simTopic1 := KeywordsFraction(topic1, topic2);
      var simTopic2 := KeywordsFraction(topic2, topic1);
      SimilarIsThresholdTest(topic1, topic2);
      if simTopic1 >= Threshold || simTopic2 >= Threshold {
        return true;
      }
      return false;
    }

    /** Records `(year, topic2)` in the buffer when the two topics are similar. */
    method SimilarityTwoTopics(topic1: Topic, topic2: Topic, year: int) returns (similar: bool)
      requires |topic1| > 0 && |topic2| > 0
      modifies this`tracedTopics
      ensures similar == Similar(topic1, topic2)
      ensures tracedTopics == if similar then old(tracedTopics) + [(year, topic2)] else old(tracedTopics)
    {
      similar := ThresholdSimilarityTwoTopics(topic1, topic2);
      if similar {
        tracedTopics := tracedTopics + [(year, topic2)];
      }
    }

    /** In merge mode, removes every macro-topic whose keyword set is strictly
        inside that of another one, in one pass over a frozen copy. */
    method CheckDuplicateTopic(merge: bool)
      modifies this`macroTopicsTimeline
      ensures macroTopicsTimeline == if merge then DropSubsumed(old(macroTopicsTimeline)) else old(macroTopicsTimeline)
    {
      if !merge {
        return;
      }
      var tmp := macroTopicsTimeline;
      ghost var sub := seq(|tmp|, p requires 0 <= p < |tmp| => Subsumed(tmp, tmp[p]));
      ghost var live := seq(|tmp|, _ => true);
      SelectAllLive(tmp, live);
      var i := 0;
      while i < |tmp|
        invariant 0 <= i <= |tmp| && |live| == |tmp|
        invariant macroTopicsTimeline == Select(tmp, live)
        invariant forall p :: 0 <= p < |tmp| && !live[p] ==> sub[p]
        invariant forall p :: 0 <= p < i && sub[p] ==> !live[p]
      {
        live := RemoveInsideOthers(tmp, sub, i, live);
        i := i + 1;
      }
      forall p | 0 <= p < |tmp| ensures live[p] <==> !Subsumed(tmp, tmp[p]) {
        assert sub[p] == Subsumed(tmp, tmp[p]);
      }
      SelectMaximal(tmp, live, tmp);
    }

    /** One turn of the outer loop of the removal pass: `topic1 = tmp[i]` is
        compared with every entry of the frozen copy. The live list is tracked
        as a mask `live` over `tmp`; afterwards `tmp[i]` is no longer live if it
        is subsumed, and only subsumed entries have been removed. */
    method RemoveInsideOthers(tmp: seq<Topic>, ghost sub: seq<bool>, i: nat, ghost live0: seq<bool>)
      returns (ghost live: seq<bool>)
      requires i < |tmp| && |live0| == |tmp| && |sub| == |tmp|
      requires forall p :: 0 <= p < |tmp| ==> sub[p] == Subsumed(tmp, tmp[p])
      requires macroTopicsTimeline == Select(tmp, live0)
      requires forall p :: 0 <= p < |tmp| && !live0[p] ==> sub[p]
      requires forall p :: 0 <= p < i && sub[p] ==> !live0[p]
      modifies this`macroTopicsTimeline
      ensures |live| == |tmp| && macroTopicsTimeline == Select(tmp, live)
      ensures forall p :: 0 <= p < |tmp| && !live[p] ==> sub[p]
      ensures forall p :: 0 <= p <= i && sub[p] ==> !live[p]
      ensures OnlyCleared(live0, live)
    {
      live := live0;
      var topic1 := tmp[i];
      ghost var top: nat := 0;
      if sub[i] {
        top := MaximalAbove(tmp, topic1);
      }
      var j := 0;
      while j < |tmp|
        invariant 0 <= j <= |tmp| && |live| == |tmp|
        invariant macroTopicsTimeline == Select(tmp, live)
        invariant PassMask(tmp, sub, i, live0, live)
        invariant sub[i] && top < j ==> !live[i]
      {
        var topic2 := tmp[j];
        ghost var atTop := sub[i] && j == top && live[i];
        if atTop {
          assert !sub[top] && live[top];
          InSelect(tmp, live, topic1);
          InSelect(tmp, live, topic2);
          assert topic1 != topic2;
          EmptyDifference(KeySet(topic1), KeySet(topic2));
          StrictSubsetSmaller(KeySet(topic1), KeySet(topic2));
        }
        if topic1 != topic2 {
          var topic1Set := KeySet(topic1);
          var topic2Set := KeySet(topic2);
          if topic1Set - topic2Set == {} || topic2Set - topic1Set == {} {
            if |topic1Set| < |topic2Set| {
              if topic1 in macroTopicsTimeline && topic2 in macroTopicsTimeline {
                RemovalStep(tmp, live, i, j);
                ghost var f := FirstLive(tmp, live, topic1);
                assert atTop ==> f == i;
                RemoveFirstLive(tmp, live, f);
                ClearOne(tmp, sub, i, live0, live, f);
                macroTopicsTimeline := RemoveFirst(macroTopicsTimeline, topic1);
                live := live[f := false];
              } else if topic2 in macroTopicsTimeline && topic1 in macroTopicsTimeline {
                // the same test as the branch above: never taken
                assert false;
              }
            }
          }
        }
        j := j + 1;
      }
    }

    /** The mask facts one turn of the removal pass keeps: only subsumed entries
        are dead, every subsumed entry before `i` is dead, and no entry dead at
        the start of the turn has come back. */
    static ghost predicate PassMask(tmp: seq<Topic>, sub: seq<bool>, i: nat, live0: seq<bool>, live: seq<bool>)
    {
      && |live| == |tmp| == |sub|
      && (forall p :: 0 <= p < |tmp| && !live[p] ==> sub[p])
      && (forall p :: 0 <= p < i && p < |tmp| && sub[p] ==> !live[p])
      && OnlyCleared(live0, live)
    }

    /** Clearing a subsumed position keeps the mask facts. */
    static lemma ClearOne(tmp: seq<Topic>, sub: seq<bool>, i: nat, live0: seq<bool>, live: seq<bool>, f: nat)
      requires PassMask(tmp, sub, i, live0, live) && f < |tmp| && sub[f]
      ensures PassMask(tmp, sub, i, live0, live[f := false])
    {
    }

    /** The facts the removal branch needs: the removed list is subsumed, and it
        has a live copy. */
    static lemma RemovalStep(tmp: seq<Topic>, live: seq<bool>, i: nat, j: nat)
      requires |live| == |tmp| && i < |tmp| && j < |tmp|
      requires KeySet(tmp[i]) - KeySet(tmp[j]) == {} || KeySet(tmp[j]) - KeySet(tmp[i]) == {}
      requires |KeySet(tmp[i])| < |KeySet(tmp[j])|
      requires tmp[i] in Select(tmp, live)
      ensures Subsumed(tmp, tmp[i])
      ensures exists p :: 0 <= p < |tmp| && live[p] && tmp[p] == tmp[i]
    {
      if KeySet(tmp[j]) - KeySet(tmp[i]) == {} {
        EmptyDifference(KeySet(tmp[j]), KeySet(tmp[i]));
        SubsetSmallerOrEqual(KeySet(tmp[j]), KeySet(tmp[i]));
      }
      EmptyDifference(KeySet(tmp[i]), KeySet(tmp[j]));
      assert KeySet(tmp[i]) < KeySet(tmp[j]);
      assert tmp[j] in tmp;
      InSelect(tmp, live, tmp[i]);
    }

    /** Appends the macro-topic built from the buffer: the target itself when
        nothing was traced, otherwise `list(topic_set)` where `topic_set` is the
        target's keywords plus, when `absorb` holds, those of the entries whose
        years continue `year + 1`, `year + 2`, ... without a gap. */
    method MergeTrace(topicTarget: Topic, year: int, absorb: bool) returns (ghost m: Topic)
      modifies this`macroTopicsTimeline
      ensures macroTopicsTimeline == old(macroTopicsTimeline) + [m]
      ensures MacroEntry(m, topicTarget, tracedTopics, year, absorb)
    {
      if |tracedTopics| == 0 {
        macroTopicsTimeline := macroTopicsTimeline + [topicTarget];
        m := topicTarget;
        return;
      }
      var topicSet := KeySet(topicTarget);
      var yearTopicTarget := year + 1;
      var n := 0;
      while n < |tracedTopics|
        invariant 0 <= n <= |tracedTopics|
        invariant absorb ==> topicSet + Absorbed(tracedTopics[n..], yearTopicTarget)
                             == KeySet(topicTarget) + Absorbed(tracedTopics, year + 1)
        invariant !absorb ==> topicSet == KeySet(topicTarget)
      {
        var traced := tracedTopics[n];
        assert tracedTopics[n..][0] == traced && tracedTopics[n..][1..] == tracedTopics[n + 1..];
        if absorb {
          if yearTopicTarget == traced.0 {
            topicSet := topicSet + KeySet(traced.1);
            yearTopicTarget := yearTopicTarget + 1;
          }
        }
        n := n + 1;
      }
      var merged := ListOfSet(topicSet);
      m := merged;
      macroTopicsTimeline := macroTopicsTimeline + [merged];
    }

    /** Mode 0: the report goes to the console; the macro-topic absorbs only
        when `merge` is set. */
    method PrintTrace(topicTarget: Topic, year: int, merge: bool) returns (ghost m: Topic)
      modifies this`macroTopicsTimeline
      ensures macroTopicsTimeline == old(macroTopicsTimeline) + [m]
      ensures MacroEntry(m, topicTarget, tracedTopics, year, merge)
    {
      m := MergeTrace(topicTarget, year, merge);
    }

    /** Mode 1: the report is appended to a log file; the macro-topic absorbs
        only when `merge` is set. */
    method WriteTrace(topicTarget: Topic, year: int, merge: bool) returns (ghost m: Topic)
      modifies this`macroTopicsTimeline
      ensures macroTopicsTimeline == old(macroTopicsTimeline) + [m]
      ensures MacroEntry(m, topicTarget, tracedTopics, year, merge)
    {
      m := MergeTrace(topicTarget, year, merge);
    }

    /** Mode 2: no report; the macro-topic always absorbs, whatever `merge` is. */
    method NoOutput(topicTarget: Topic, year: int) returns (ghost m: Topic)
      modifies this`macroTopicsTimeline
      ensures macroTopicsTimeline == old(macroTopicsTimeline) + [m]
      ensures MacroEntry(m, topicTarget, tracedTopics, year, true)
    {
      m := MergeTrace(topicTarget, year, true);
    }

    /** Dispatches on the output mode; a mode outside 0..2 does nothing. */
    method ResultHandling(topicTarget: Topic, year: int, merge: bool, mode: int) returns (ghost m: Topic)
      modifies this`macroTopicsTimeline
      ensures 0 <= mode <= 2 ==>
                macroTopicsTimeline == old(macroTopicsTimeline) + [m]
                && MacroEntry(m, topicTarget, tracedTopics, year, merge || mode == 2)
      ensures !(0 <= mode <= 2) ==> macroTopicsTimeline == old(macroTopicsTimeline)
    {
      m := topicTarget;
      if mode == 0 {
        m := PrintTrace(topicTarget, year, merge);
      }
      if mode == 1 {
        m := WriteTrace(topicTarget, year, merge);
      }
      if mode == 2 {
        m := NoOutput(topicTarget, year);
      }
    }

    /** Traces `topicTarget` of `year` through every later year, keeping the
        first similar topic of each, then appends its macro-topic. */
    method StudyBehaviourDifferentYears(topicTarget: Topic, year: int, merge: bool, mode: int) returns (ghost m: Topic)
      requires YearsFrom(topicsDict, year + 1) && ValidFrom(topicsDict, year + 1)
      requires |topicTarget| > 0
      modifies this`tracedTopics, this`macroTopicsTimeline
      ensures tracedTopics == TraceFrom(topicsDict, topicTarget, year + 1)
      ensures 0 <= mode <= 2 ==>
                macroTopicsTimeline == old(macroTopicsTimeline) + [m]
                && MacroEntry(m, topicTarget, tracedTopics, year, merge || mode == 2)
      ensures !(0 <= mode <= 2) ==> macroTopicsTimeline == old(macroTopicsTimeline)
    {
      tracedTopics := [];
      var i := year + 1;
      while i < LastYear + 1
        invariant year + 1 <= i && (i > LastYear + 1 ==> i == year + 1)
        invariant ValidFrom(topicsDict, i)
        invariant i <= LastYear + 1 ==> tracedTopics == TraceBetween(topicsDict, topicTarget, year + 1, i)
        invariant i > LastYear + 1 ==> tracedTopics == []
        invariant macroTopicsTimeline == old(macroTopicsTimeline)
      {
        ScanYear(topicTarget, i);
        i := i + 1;
      }
      if i <= LastYear + 1 {
        TraceSplit(topicsDict, topicTarget, year + 1, i);
      }
      m := ResultHandling(topicTarget, year, merge, mode);
    }

    /** The inner loop of the tracing scan: the topics of year `i` are compared
        with the target in list order and the scan stops at the first similar one. */
    method ScanYear(topicTarget: Topic, i: int)
      requires i in topicsDict && NonEmptyTopics(topicsDict[i])
      requires |topicTarget| > 0
      modifies this`tracedTopics
      ensures tracedTopics == old(tracedTopics) + FoundIn(topicTarget, topicsDict[i], i)
    {
      var topics := topicsDict[i];
      var n := 0;
      while n < |topics|
        invariant 0 <= n <= |topics|
        invariant tracedTopics == old(tracedTopics)
        invariant FirstSimilar(topicTarget, topics) == FirstSimilar(topicTarget, topics[n..])
      {
        assert topics[n] in topics;
        var result := SimilarityTwoTopics(topicTarget, topics[n], i);
        assert topics[n..] == [topics[n]] + topics[n + 1..];
        if result {
          break;
        }
        n := n + 1;
      }
    }

    /** Traces every topic of 2000..2017; in merge mode then appends the 2018
        topics and removes subsumed macro-topics. `ok` is false, and nothing
        changes, for a mode outside 0..2 (the source's assertion).
        `emitted` is the list of macro-topics appended, one per target. */
    method TraceTimeline(mode: int, merge: bool) returns (ok: bool, ghost emitted: seq<Topic>)
      requires ValidTimeline(topicsDict)
      modifies this`tracedTopics, this`macroTopicsTimeline
      ensures ok == (0 <= mode <= 2)
      ensures !ok ==> macroTopicsTimeline == old(macroTopicsTimeline) && tracedTopics == old(tracedTopics)
      ensures ok ==> EmittedFor(topicsDict, emitted, merge || mode == 2)
      ensures ok ==> macroTopicsTimeline == if merge then DropSubsumed(old(macroTopicsTimeline) + emitted + topicsDict[LastYear])
                                           else old(macroTopicsTimeline) + emitted
      ensures ok ==> BufferAfter(topicsDict, LastTargetBefore(topicsDict, LastYear), tracedTopics, old(tracedTopics))
    {
      if !(mode >= 0 && mode <= 2) {
        return false, [];
      }
      ok := true;
      emitted := TraceAllYears(merge, mode);
      if merge {
        AppendLastYear();
        CheckDuplicateTopic(merge);
      }
    }

    /** The outer loop of the tracing scan: every year of 2000..2017 in order. */
    method TraceAllYears(merge: bool, mode: int) returns (ghost emitted: seq<Topic>)
      requires ValidTimeline(topicsDict) && 0 <= mode <= 2
      modifies this`tracedTopics, this`macroTopicsTimeline
      ensures EmittedFor(topicsDict, emitted, merge || mode == 2)
      ensures macroTopicsTimeline == old(macroTopicsTimeline) + emitted
      ensures BufferAfter(topicsDict, LastTargetBefore(topicsDict, LastYear), tracedTopics, old(tracedTopics))
    {
      emitted := [];
      ghost var absorb := merge || mode == 2;
      var i := FirstYear;
      while i < LastYear
        invariant FirstYear <= i <= LastYear
        invariant ValidFrom(topicsDict, i)
        invariant EmittedForTargets(topicsDict, TargetsBefore(topicsDict, i), emitted, absorb)
        invariant macroTopicsTimeline == old(macroTopicsTimeline) + emitted
        invariant BufferAfter(topicsDict, LastTargetBefore(topicsDict, i), tracedTopics, old(tracedTopics))
      {
        ghost var mid := tracedTopics;
        ghost var added := TraceYear(i, merge, mode);
        EmittedForYear(topicsDict, i, emitted, added, absorb);
        BufferAfterYear(topicsDict, i, old(tracedTopics), mid, tracedTopics);
        AppendAssociative(old(macroTopicsTimeline), emitted, added);
        emitted := emitted + added;
        i := i + 1;
      }
    }

    /** The inner loop over the topics of year `i`: each is traced and its
        macro-topic appended; `added` holds those macro-topics in order. */
    method TraceYear(i: int, merge: bool, mode: int) returns (ghost added: seq<Topic>)
      requires ValidTimeline(topicsDict) && ValidFrom(topicsDict, i)
      requires FirstYear <= i < LastYear && 0 <= mode <= 2
      modifies this`tracedTopics, this`macroTopicsTimeline
      ensures EmittedForTargets(topicsDict, YearTargets(i, topicsDict[i]), added, merge || mode == 2)
      ensures macroTopicsTimeline == old(macroTopicsTimeline) + added
      ensures topicsDict[i] == [] ==> tracedTopics == old(tracedTopics)
      ensures topicsDict[i] != [] ==>
                tracedTopics == TraceFrom(topicsDict, topicsDict[i][|topicsDict[i]| - 1], i + 1)
    {
      var topics := topicsDict[i];
      ghost var absorb := merge || mode == 2;
      added := [];
      var n := 0;
      while n < |topics|
        invariant 0 <= n <= |topics|
        invariant EmittedForTargets(topicsDict, YearTargets(i, topics)[..n], added, absorb)
        invariant macroTopicsTimeline == old(macroTopicsTimeline) + added
        invariant n == 0 ==> tracedTopics == old(tracedTopics)
        invariant n > 0 ==> tracedTopics == TraceFrom(topicsDict, topics[n - 1], i + 1)
      {
        var topic := topics[n];
        assert topic in topicsDict[i];
        ghost var m := StudyBehaviourDifferentYears(topic, i, merge, mode);
        EmittedForNext(topicsDict, i, topics, n, added, m, tracedTopics, absorb);
        AppendAssociative(old(macroTopicsTimeline), added, [m]);
        added := added + [m];
        n := n + 1;
      }
      assert YearTargets(i, topics)[..n] == YearTargets(i, topics);
    }

    /** Once year `i` is traced, the record covers the targets before year `i + 1`. */
    static lemma EmittedForYear(d: TopicMap, i: int, emitted: seq<Topic>, added: seq<Topic>, absorb: bool)
      requires YearsFrom(d, FirstYear) && FirstYear <= i < LastYear
      requires EmittedForTargets(d, TargetsBefore(d, i), emitted, absorb)
      requires EmittedForTargets(d, YearTargets(i, d[i]), added, absorb)
      ensures EmittedForTargets(d, TargetsBefore(d, i + 1), emitted + added, absorb)
    {
      EmittedForConcat(d, TargetsBefore(d, i), emitted, YearTargets(i, d[i]), added, absorb);
    }

    /** After year `i` the buffer holds the trace of the last target so far. */
    static lemma BufferAfterYear(d: TopicMap, i: int, before: seq<Traced>, mid: seq<Traced>, after: seq<Traced>)
      requires YearsFrom(d, FirstYear) && FirstYear <= i < LastYear
      requires BufferAfter(d, LastTargetBefore(d, i), mid, before)
      requires d[i] == [] ==> after == mid
      requires d[i] != [] ==> after == TraceFrom(d, d[i][|d[i]| - 1], i + 1)
      ensures BufferAfter(d, LastTargetBefore(d, i + 1), after, before)
    {
    }

    /** One more traced target of year `i` keeps the record of macro-topics built. */
    static lemma EmittedForNext(d: TopicMap, i: int, topics: seq<Topic>, n: nat, added: seq<Topic>, m: Topic,
                                traced: seq<Traced>, absorb: bool)
      requires YearsFrom(d, FirstYear) && FirstYear <= i < LastYear && topics == d[i] && n < |topics|
      requires EmittedForTargets(d, YearTargets(i, topics)[..n], added, absorb)
      requires traced == TraceFrom(d, topics[n], i + 1)
      requires MacroEntry(m, topics[n], traced, i, absorb)
      ensures EmittedForTargets(d, YearTargets(i, topics)[..n + 1], added + [m], absorb)
    {
      assert EntryFor(d, (i, topics[n]), m, absorb);
      assert EmittedForTargets(d, [(i, topics[n])], [m], absorb);
      EmittedForConcat(d, YearTargets(i, topics)[..n], added, [(i, topics[n])], [m], absorb);
      assert YearTargets(i, topics)[..n + 1] == YearTargets(i, topics)[..n] + [(i, topics[n])];
    }

    /** Merge mode: every 2018 topic is appended unchanged. */
    method AppendLastYear()
      requires LastYear in topicsDict
      modifies this`macroTopicsTimeline
      ensures macroTopicsTimeline == old(macroTopicsTimeline) + topicsDict[LastYear]
    {
      var topics := topicsDict[LastYear];
      var n := 0;
      while n < |topics|
        invariant 0 <= n <= |topics|
        invariant macroTopicsTimeline == old(macroTopicsTimeline) + topics[..n]
      {
        assert topics[..n + 1] == topics[..n] + [topics[n]];
        macroTopicsTimeline := macroTopicsTimeline + [topics[n]];
        n := n + 1;
      }
      assert topics[..n] == topics;
    }

    /** The macro-topics found so far. */
    function GetTopicsTimeline(): seq<Topic>
      reads this
    {
      macroTopicsTimeline
    }
  }
}
