/** What timeline tracing computes, stated as functions over values:
    keyword containment, topic similarity, the per-year first-match trace of a
    target topic, contiguous-chain absorption, and the subsumption filter applied
    to the macro-topic list. The class in module TracingMerge is proved against
    these definitions. */
module TraceSpec {
  import opened Sequences

  /** Year -> that year's topics, in the order the extractor produced them. */
  type TopicMap = map<int, seq<Topic>>

  /** A `(year, topic)` record of the traced-topics buffer. */
  type Traced = (int, Topic)

  const FirstYear: int := 2000
  const LastYear: int := 2018
  const Threshold: real := 0.5

  /** Every year from `i` to the end of the timeline has an entry. */
  ghost predicate YearsFrom(d: TopicMap, i: int)
  {
    forall y :: i <= y <= LastYear ==> y in d
  }

  /** All 19 years are present and every topic has at least one keyword
      (communities found with minimum clique size 2 have two or more). */
  ghost predicate ValidTimeline(d: TopicMap)
  {
    YearsFrom(d, FirstYear) && ValidFrom(d, FirstYear)
  }

  /** Every year from `y` to the end of the timeline has an entry, and none of
      its topics is empty. */
  ghost predicate ValidFrom(d: TopicMap, y: int)
    decreases LastYear + 1 - y
  {
    y > LastYear || (y in d && NonEmptyTopics(d[y]) && ValidFrom(d, y + 1))
  }

  /** No topic of the list is empty. */
  predicate NonEmptyTopics(ts: seq<Topic>)
  {
    forall n :: 0 <= n < |ts| ==> |ts[n]| > 0
  }

  // ---------------------------------------------------------------------------
  // Keyword containment and similarity

  /** Number of positions of `a` whose keyword occurs somewhere in `b`. */
  function CountIn(a: Topic, b: Topic): (n: nat)
    ensures n <= |a|
  {
    if a == [] then 0
    else CountIn(a[..|a| - 1], b) + (if a[|a| - 1] in b then 1 else 0)
  }

  /** Fraction of the keywords of `a` that are contained in `b`. */
  function Fraction(a: Topic, b: Topic): real
    requires |a| > 0
  {
    CountIn(a, b) as real / |a| as real
  }

  /** Two topics are similar when at least half of either one lies in the other
      (the threshold 0.5 written without division). */
  predicate Similar(a: Topic, b: Topic)
  {
    2 * CountIn(a, b) >= |a| || 2 * CountIn(b, a) >= |b|
  }

  lemma FractionInUnitInterval(a: Topic, b: Topic)
    requires |a| > 0
    ensures 0.0 <= Fraction(a, b) <= 1.0
  {
    var c, n := CountIn(a, b) as real, |a| as real;
    assert c <= n;
    assert c / n <= n / n;
  }

  lemma {:induction false} CountInContained(a: Topic, b: Topic)
    requires forall x :: x in a ==> x in b
    ensures CountIn(a, b) == |a|
  {
    if a != [] {
      var p := a[..|a| - 1];
      assert forall x :: x in p ==> x in a;
      CountInContained(p, b);
    }
  }

  lemma FractionOfItself(a: Topic)
    requires |a| > 0
    ensures Fraction(a, a) == 1.0
  {
    CountInContained(a, a);
    assert CountIn(a, a) as real == |a| as real;
  }

  lemma FractionAtThreshold(a: Topic, b: Topic)
    requires |a| > 0
    ensures Fraction(a, b) >= Threshold <==> 2 * CountIn(a, b) >= |a|
  {
    AtLeastHalf(CountIn(a, b), |a|);
  }

  lemma AtLeastHalf(c: nat, n: nat)
    requires n > 0
    ensures c as real / n as real >= 0.5 <==> 2 * c >= n
  {
    var q := c as real / n as real;
    assert q * n as real == c as real;
    assert (2 * c) as real == 2.0 * c as real;
    if q >= 0.5 {
      assert q * n as real >= 0.5 * n as real;
    } else {
      assert q * n as real < 0.5 * n as real;
    }
  }

  /** The source's test, both fractions against the threshold, is `Similar`. */
  lemma SimilarIsThresholdTest(a: Topic, b: Topic)
    requires |a| > 0 && |b| > 0
    ensures Similar(a, b) <==> (Fraction(a, b) >= Threshold || Fraction(b, a) >= Threshold)
  {
    FractionAtThreshold(a, b);
    FractionAtThreshold(b, a);
  }

  /** Similarity is symmetric although the containment fraction is not. */
  lemma SimilarIsSymmetric(a: Topic, b: Topic)
    requires |a| > 0 && |b| > 0
    ensures (Fraction(a, b) >= Threshold || Fraction(b, a) >= Threshold)
        <==> (Fraction(b, a) >= Threshold || Fraction(a, b) >= Threshold)
    ensures Similar(a, b) == Similar(b, a)
  {
  }

  // ---------------------------------------------------------------------------
  // Tracing one target across the later years

  /** The containment fraction itself is not symmetric: `[a]` lies wholly in
      `[a, b]`, but only half of `[a, b]` lies in `[a]`. */
  lemma FractionIsNotSymmetric()
    ensures Fraction(["a"], ["a", "b"]) == 1.0
    ensures Fraction(["a", "b"], ["a"]) == 0.5
  {
    assert CountIn(["a"], ["a", "b"]) == 1 by {
      CountInContained(["a"], ["a", "b"]);
    }
    assert CountIn(["a", "b"], ["a"]) == 1 by {
      assert ["a", "b"][1..] == ["b"];
      assert "b" !in ["a"];
    }
  }

  /** The first topic of `ts`, in list order, that is similar to `target`. */
  function FirstSimilar(target: Topic, ts: seq<Topic>): Option<Topic>
  {
    if ts == [] then None
    else if Similar(target, ts[0]) then Some(ts[0])
    else FirstSimilar(target, ts[1..])
  }

  /** `FirstSimilar` finds nothing exactly when no topic is similar, and
      otherwise a similar topic with no similar topic before it. */
  lemma {:induction false} FirstSimilarIsFirst(target: Topic, ts: seq<Topic>)
    ensures FirstSimilar(target, ts).None? <==> forall c :: c in ts ==> !Similar(target, c)
    ensures FirstSimilar(target, ts).Some? ==>
              exists n :: 0 <= n < |ts| && ts[n] == FirstSimilar(target, ts).value && Similar(target, ts[n])
                          && forall m :: 0 <= m < n ==> !Similar(target, ts[m])
  {
    if ts != [] && !Similar(target, ts[0]) {
      FirstSimilarIsFirst(target, ts[1..]);
      var r := FirstSimilar(target, ts[1..]);
      assert forall c :: c in ts ==> c == ts[0] || c in ts[1..];
      if r.Some? {
        var n :| 0 <= n < |ts[1..]| && ts[1..][n] == r.value && Similar(target, ts[1..][n])
                  && forall m :: 0 <= m < n ==> !Similar(target, ts[1..][m]);
        assert ts[n + 1] == r.value;
        forall m | 0 <= m < n + 1 ensures !Similar(target, ts[m]) {
          if m > 0 { assert ts[m] == ts[1..][m - 1]; }
        }
      }
    } else if ts != [] {
      assert ts[0] in ts;
    }
  }

  /** What scanning year `y`'s list contributes to the buffer: its first similar
      topic, or nothing. */
  function FoundIn(target: Topic, ts: seq<Topic>, y: int): seq<Traced>
  {
    match FirstSimilar(target, ts)
    case None => []
    case Some(c) => [(y, c)]
  }

  /** The traced-topics buffer after scanning years `i`..2018 for `target`. */
  function TraceFrom(d: TopicMap, target: Topic, i: int): (r: seq<Traced>)
    requires YearsFrom(d, i)
    decreases LastYear + 1 - i
  {
    if i > LastYear then []
    else FoundIn(target, d[i], i) + TraceFrom(d, target, i + 1)
  }

  /** The buffer after scanning years `a`..`b`-1 only, in year order. */
  function TraceBetween(d: TopicMap, target: Topic, a: int, b: int): seq<Traced>
    requires YearsFrom(d, a) && b <= LastYear + 1
    decreases b - a
  {
    if b <= a then []
    else TraceBetween(d, target, a, b - 1) + FoundIn(target, d[b - 1], b - 1)
  }

  /** Scanning years `a`..`b`-1 and then `b`..2018 is scanning `a`..2018. */
  lemma {:induction false} TraceSplit(d: TopicMap, target: Topic, a: int, b: int)
    requires YearsFrom(d, a) && a <= b <= LastYear + 1
    ensures TraceBetween(d, target, a, b) + TraceFrom(d, target, b) == TraceFrom(d, target, a)
    decreases b - a
  {
    if b > a {
      TraceSplit(d, target, a, b - 1);
      var front, found, rest := TraceBetween(d, target, a, b - 1), FoundIn(target, d[b - 1], b - 1),
                                TraceFrom(d, target, b);
      assert TraceFrom(d, target, b - 1) == found + rest;
      assert (front + found) + rest == front + (found + rest);
    }
  }

  /** The trace holds at most one entry per year: its years lie in `i`..2018
      and strictly increase. */
  lemma {:induction false} TraceYearsIncrease(d: TopicMap, target: Topic, i: int)
    requires YearsFrom(d, i)
    ensures forall n :: 0 <= n < |TraceFrom(d, target, i)| ==> i <= TraceFrom(d, target, i)[n].0 <= LastYear
    ensures forall a, b :: 0 <= a < b < |TraceFrom(d, target, i)| ==>
              TraceFrom(d, target, i)[a].0 < TraceFrom(d, target, i)[b].0
    decreases LastYear + 1 - i
  {
    if i <= LastYear {
      TraceYearsIncrease(d, target, i + 1);
      var head: seq<Traced> := FoundIn(target, d[i], i);
      var tail: seq<Traced> := TraceFrom(d, target, i + 1);
      var r := head + tail;
      assert TraceFrom(d, target, i) == r;
      assert |head| <= 1 && (|head| == 1 ==> head[0].0 == i);
      forall n | 0 <= n < |r| ensures i <= r[n].0 <= LastYear {
        if n >= |head| { assert r[n] == tail[n - |head|]; }
      }
      forall a, b | 0 <= a < b < |r| ensures r[a].0 < r[b].0 {
        assert r[b] == tail[b - |head|];
        if a >= |head| { assert r[a] == tail[a - |head|]; }
      }
    }
  }

  /** Every entry of the trace is the first topic of its year similar to the
      target (so a year without a similar topic contributes nothing). */
  lemma {:induction false} TraceEntriesAreFirstMatches(d: TopicMap, target: Topic, i: int)
    requires YearsFrom(d, i)
    ensures forall n :: 0 <= n < |TraceFrom(d, target, i)| ==>
              TraceFrom(d, target, i)[n].0 in d &&
              FirstSimilar(target, d[TraceFrom(d, target, i)[n].0]) == Some(TraceFrom(d, target, i)[n].1)
    decreases LastYear + 1 - i
  {
    if i <= LastYear {
      TraceEntriesAreFirstMatches(d, target, i + 1);
      var head: seq<Traced> := FoundIn(target, d[i], i);
      var tail: seq<Traced> := TraceFrom(d, target, i + 1);
      assert TraceFrom(d, target, i) == head + tail;
      forall n | 0 <= n < |head + tail|
        ensures (head + tail)[n].0 in d && FirstSimilar(target, d[(head + tail)[n].0]) == Some((head + tail)[n].1)
      {
        if n >= |head| {
          assert (head + tail)[n] == tail[n - |head|];
        }
      }
    }
  }

  /** Every year after the target's that has a topic similar to it has an entry;
      `n` is its position in the buffer. */
  lemma {:induction false} TraceCoversMatchingYears(d: TopicMap, target: Topic, i: int, y: int) returns (n: nat)
    requires YearsFrom(d, i)
    requires i <= y <= LastYear && FirstSimilar(target, d[y]).Some?
    ensures n < |TraceFrom(d, target, i)| && TraceFrom(d, target, i)[n] == (y, FirstSimilar(target, d[y]).value)
    decreases LastYear + 1 - i
  {
    var head: seq<Traced> := FoundIn(target, d[i], i);
    var tail: seq<Traced> := TraceFrom(d, target, i + 1);
    assert TraceFrom(d, target, i) == head + tail;
    if y == i {
      assert head == [(i, FirstSimilar(target, d[i]).value)];
      n := 0;
      assert (head + tail)[0] == head[0];
    } else {
      var m := TraceCoversMatchingYears(d, target, i + 1, y);
      n := |head| + m;
      assert (head + tail)[|head| + m] == tail[m];
    }
  }

  // ---------------------------------------------------------------------------
  // Building the macro-topic from the buffer

  /** The keywords unioned in by the source's loop: an entry is absorbed when
      its year is the one expected next, which then moves on by one. */
  function Absorbed(traced: seq<Traced>, expected: int): set<Keyword>
  {
    if traced == [] then {}
    else if traced[0].0 == expected then KeySet(traced[0].1) + Absorbed(traced[1..], expected + 1)
    else Absorbed(traced[1..], expected)
  }

  /** Length of the longest prefix of `traced` whose years run `start`, `start+1`, ... */
  function RunLength(traced: seq<Traced>, start: int): (n: nat)
    ensures n <= |traced|
    ensures forall m :: 0 <= m < n ==> traced[m].0 == start + m
    ensures n < |traced| ==> traced[n].0 != start + n
  {
    if traced == [] || traced[0].0 != start then 0
    else 1 + RunLength(traced[1..], start + 1)
  }

  /** Union of the keyword sets of all entries. */
  function UnionOf(traced: seq<Traced>): set<Keyword>
  {
    if traced == [] then {} else KeySet(traced[0].1) + UnionOf(traced[1..])
  }

  lemma {:induction false} NothingExpected(traced: seq<Traced>, expected: int)
    requires forall m :: 0 <= m < |traced| ==> traced[m].0 != expected
    ensures Absorbed(traced, expected) == {}
  {
    if traced != [] {
      NothingExpected(traced[1..], expected);
    }
  }

  /** On a buffer with strictly increasing years, all at or after `start`, the
      loop absorbs exactly the unbroken run of years `start`, `start+1`, ...:
      the first gap stops absorption for good. */
  lemma {:induction false} AbsorbedIsUnbrokenRun(traced: seq<Traced>, start: int)
    requires forall a, b :: 0 <= a < b < |traced| ==> traced[a].0 < traced[b].0
    requires forall m :: 0 <= m < |traced| ==> start <= traced[m].0
    ensures Absorbed(traced, start) == UnionOf(traced[..RunLength(traced, start)])
  {
    if traced == [] {
    } else if traced[0].0 == start {
      AbsorbedIsUnbrokenRun(traced[1..], start + 1);
      var n := RunLength(traced[1..], start + 1);
      assert traced[..1 + n][1..] == traced[1..][..n];
    } else {
      NothingExpected(traced[1..], start);
      assert traced[..0] == [];
    }
  }

  /** The keyword set of the macro-topic built for `target` of year `y`. */
  function MacroSet(d: TopicMap, target: Topic, y: int, absorb: bool): set<Keyword>
    requires YearsFrom(d, y + 1)
  {
    KeySet(target) + (if absorb then Absorbed(TraceFrom(d, target, y + 1), y + 1) else {})
  }

  /** What the buffer-to-macro-topic step may append for `target`: the target
      list itself when nothing was traced, otherwise a list of distinct keywords
      (`list(topic_set)`) with the target's keywords plus, when absorbing, the
      chain's. */
  predicate MacroEntry(m: Topic, target: Topic, traced: seq<Traced>, year: int, absorb: bool)
  {
    && (traced == [] ==> m == target)
    && (traced != [] ==> NoDuplicates(m))
    && KeySet(m) == KeySet(target) + (if absorb then Absorbed(traced, year + 1) else {})
  }

  /** The macro-topic always contains its target; it equals it exactly when
      nothing was absorbed; otherwise it is the target plus the run of similar
      topics found in the years right after the target's. */
  lemma MacroSetIsTargetPlusRun(d: TopicMap, target: Topic, y: int, absorb: bool)
    requires YearsFrom(d, y + 1)
    ensures KeySet(target) <= MacroSet(d, target, y, absorb)
    ensures !absorb ==> MacroSet(d, target, y, absorb) == KeySet(target)
    ensures TraceFrom(d, target, y + 1) == [] ==> MacroSet(d, target, y, absorb) == KeySet(target)
    ensures var tr := TraceFrom(d, target, y + 1);
            absorb ==> MacroSet(d, target, y, absorb) == KeySet(target) + UnionOf(tr[..RunLength(tr, y + 1)])
  {
    TraceYearsIncrease(d, target, y + 1);
    AbsorbedIsUnbrokenRun(TraceFrom(d, target, y + 1), y + 1);
  }

  // ---------------------------------------------------------------------------
  // The targets of the whole timeline

  function YearTargets(y: int, ts: seq<Topic>): seq<Traced>
  {
    seq(|ts|, n requires 0 <= n < |ts| => (y, ts[n]))
  }

  /** Every (year, topic) of years 2000..`y`-1, in year then list order: the
      targets the tracing loop has visited before year `y`. */
  function TargetsBefore(d: TopicMap, y: int): seq<Traced>
    requires YearsFrom(d, FirstYear) && y <= LastYear
    decreases y - FirstYear
  {
    if y <= FirstYear then []
    else TargetsBefore(d, y - 1) + YearTargets(y - 1, d[y - 1])
  }

  /** The last target of the years 2000..`y`-1: the last topic of the latest
      of those years that has topics, if any. */
  function LastTargetBefore(d: TopicMap, y: int): (r: Option<Traced>)
    requires YearsFrom(d, FirstYear) && y <= LastYear
    ensures r.Some? ==> FirstYear <= r.value.0 < y
    decreases y - FirstYear
  {
    if y <= FirstYear then None
    else if d[y - 1] != [] then Some((y - 1, d[y - 1][|d[y - 1]| - 1]))
    else LastTargetBefore(d, y - 1)
  }

  /** It is the last element of the list of targets. */
  lemma {:induction false} LastTargetIsLastOfTargets(d: TopicMap, y: int)
    requires YearsFrom(d, FirstYear) && y <= LastYear
    ensures LastTargetBefore(d, y).None? <==> TargetsBefore(d, y) == []
    ensures TargetsBefore(d, y) != [] ==>
              LastTargetBefore(d, y) == Some(TargetsBefore(d, y)[|TargetsBefore(d, y)| - 1])
    decreases y - FirstYear
  {
    if y > FirstYear {
      LastTargetIsLastOfTargets(d, y - 1);
      var front: seq<Traced>, yt: seq<Traced> := TargetsBefore(d, y - 1), YearTargets(y - 1, d[y - 1]);
      assert TargetsBefore(d, y) == front + yt;
      if d[y - 1] == [] {
        assert front + yt == front;
      } else {
        assert (front + yt)[|front + yt| - 1] == yt[|yt| - 1];
      }
    }
  }

  /** The traced-topics buffer after tracing up to the target `last`: that
      target's trace, or `before` when there was no target. */
  ghost predicate BufferAfter(d: TopicMap, last: Option<Traced>, buffer: seq<Traced>, before: seq<Traced>)
    requires YearsFrom(d, FirstYear)
  {
    match last
    case None => buffer == before
    case Some(t) => FirstYear <= t.0 < LastYear && buffer == TraceFrom(d, t.1, t.0 + 1)
  }

  /** All targets of the timeline: every topic of 2000..2017. */
  function Targets(d: TopicMap): seq<Traced>
    requires YearsFrom(d, FirstYear)
  {
    TargetsBefore(d, LastYear)
  }

  /** The targets before year `y` are exactly the topics of 2000..`y`-1, each with its year. */
  lemma {:induction false} TargetsBeforeAreTopics(d: TopicMap, y: int)
    requires YearsFrom(d, FirstYear) && y <= LastYear
    ensures forall n :: 0 <= n < |TargetsBefore(d, y)| ==>
              FirstYear <= TargetsBefore(d, y)[n].0 < y && TargetsBefore(d, y)[n].1 in d[TargetsBefore(d, y)[n].0]
    ensures forall z, t :: FirstYear <= z < y && t in d[z] ==> (z, t) in TargetsBefore(d, y)
    decreases y - FirstYear
  {
    if y > FirstYear {
      TargetsBeforeAreTopics(d, y - 1);
      var front: seq<Traced>, yt: seq<Traced> := TargetsBefore(d, y - 1), YearTargets(y - 1, d[y - 1]);
      assert TargetsBefore(d, y) == front + yt;
      forall n | 0 <= n < |front + yt|
        ensures FirstYear <= (front + yt)[n].0 < y && (front + yt)[n].1 in d[(front + yt)[n].0]
      {
        if n >= |front| {
          assert (front + yt)[n] == yt[n - |front|];
        }
      }
      forall z, t | FirstYear <= z < y && t in d[z] ensures (z, t) in front + yt {
        if z == y - 1 {
          var k :| 0 <= k < |d[z]| && d[z][k] == t;
          assert yt[k] == (z, t);
        }
      }
    }
  }

  /** `m` is a macro-topic built for the target `t` (a year of 2000..2017 and a topic). */
  ghost predicate EntryFor(d: TopicMap, t: Traced, m: Topic, absorb: bool)
    requires YearsFrom(d, FirstYear)
  {
    FirstYear <= t.0 < LastYear && MacroEntry(m, t.1, TraceFrom(d, t.1, t.0 + 1), t.0, absorb)
  }

  /** A recorded macro-topic has exactly the keyword set `MacroSet` describes,
      so `MacroSetIsTargetPlusRun` applies to every entry of the timeline. */
  lemma EntryForIsMacroSet(d: TopicMap, t: Traced, m: Topic, absorb: bool)
    requires YearsFrom(d, FirstYear)
    requires EntryFor(d, t, m, absorb)
    ensures KeySet(m) == MacroSet(d, t.1, t.0, absorb)
    ensures KeySet(t.1) <= KeySet(m)
  {
  }

  /** `emitted[n]` is a macro-topic built for target `ts[n]`, for every `n`. */
  ghost predicate EmittedForTargets(d: TopicMap, ts: seq<Traced>, emitted: seq<Topic>, absorb: bool)
    requires YearsFrom(d, FirstYear)
  {
    && |emitted| == |ts|
    && forall n {:trigger EntryFor(d, ts[n], emitted[n], absorb)} :: 0 <= n < |ts| ==> EntryFor(d, ts[n], emitted[n], absorb)
  }

  /** `emitted` holds one macro-topic per target of the timeline, in target order. */
  ghost predicate EmittedFor(d: TopicMap, emitted: seq<Topic>, absorb: bool)
    requires YearsFrom(d, FirstYear)
  {
    EmittedForTargets(d, Targets(d), emitted, absorb)
  }

  lemma EmittedForConcat(d: TopicMap, ts1: seq<Traced>, e1: seq<Topic>, ts2: seq<Traced>, e2: seq<Topic>, absorb: bool)
    requires YearsFrom(d, FirstYear)
    requires EmittedForTargets(d, ts1, e1, absorb) && EmittedForTargets(d, ts2, e2, absorb)
    ensures EmittedForTargets(d, ts1 + ts2, e1 + e2, absorb)
  {
    var ts, em := ts1 + ts2, e1 + e2;
    forall n | 0 <= n < |ts| ensures EntryFor(d, ts[n], em[n], absorb) {
      if n < |ts1| {
        assert ts[n] == ts1[n] && em[n] == e1[n];
      } else {
        assert ts[n] == ts2[n - |ts1|] && em[n] == e2[n - |ts1|];
      }
    }
  }

  // ---------------------------------------------------------------------------
  // Removing macro-topics whose keyword set is strictly inside another's

  /** Some entry of `l` has a keyword set strictly larger than `t`'s. */
  predicate Subsumed(l: seq<Topic>, t: Topic)
  {
    exists u :: u in l && KeySet(t) < KeySet(u)
  }

  function KeepMaximal(src: seq<Topic>, all: seq<Topic>): seq<Topic>
  {
    if src == [] then []
    else (if Subsumed(all, src[0]) then [] else [src[0]]) + KeepMaximal(src[1..], all)
  }

  /** The entries of `l` not strictly contained in another entry, in order. */
  function DropSubsumed(l: seq<Topic>): seq<Topic>
  {
    KeepMaximal(l, l)
  }

  lemma {:induction false} KeepMaximalMembers(src: seq<Topic>, all: seq<Topic>, t: Topic)
    ensures t in KeepMaximal(src, all) <==> t in src && !Subsumed(all, t)
    ensures multiset(KeepMaximal(src, all))[t] == if Subsumed(all, t) then 0 else multiset(src)[t]
  {
    if src != [] {
      KeepMaximalMembers(src[1..], all, t);
      assert src == [src[0]] + src[1..];
    }
  }

  lemma {:induction false} KeepMaximalIsSubsequence(src: seq<Topic>, all: seq<Topic>)
    ensures SubsequenceOf(KeepMaximal(src, all), src)
  {
    if src != [] {
      KeepMaximalIsSubsequence(src[1..], all);
      var rest := KeepMaximal(src[1..], all);
      if !Subsumed(all, src[0]) {
        assert KeepMaximal(src, all) == [src[0]] + rest;
      } else {
        assert KeepMaximal(src, all) == rest;
        SubsequenceOfTail(rest, src);
      }
    }
  }

  lemma {:induction false} SubsequenceOfTail(a: seq<Topic>, b: seq<Topic>)
    requires b != []
    requires SubsequenceOf(a, b[1..])
    ensures SubsequenceOf(a, b)
  {
  }

  /** The single pass only removes entries: the result is a subsequence of the
      list; an entry survives iff no entry's keyword set strictly contains its
      own; an entry that survives keeps every one of its copies, so entries with
      equal keyword sets are all kept. */
  lemma DropSubsumedOutcome(l: seq<Topic>)
    ensures SubsequenceOf(DropSubsumed(l), l)
    ensures forall t :: t in DropSubsumed(l) <==> t in l && !Subsumed(l, t)
    ensures forall t :: t in l && !Subsumed(l, t) ==> multiset(DropSubsumed(l))[t] == multiset(l)[t]
    ensures forall t, u :: t in l && u in l && KeySet(t) == KeySet(u) ==>
              (t in DropSubsumed(l) <==> u in DropSubsumed(l))
  {
    KeepMaximalIsSubsequence(l, l);
    forall t ensures t in DropSubsumed(l) <==> t in l && !Subsumed(l, t) {
      KeepMaximalMembers(l, l, t);
    }
    forall t | t in l && !Subsumed(l, t) ensures multiset(DropSubsumed(l))[t] == multiset(l)[t] {
      KeepMaximalMembers(l, l, t);
    }
  }

  /** No strictly nested pair is left, so one pass reaches the fixed point:
      filtering again changes nothing. */
  lemma DropSubsumedIsFinal(l: seq<Topic>)
    ensures forall a, b :: a in DropSubsumed(l) && b in DropSubsumed(l) ==> !(KeySet(a) < KeySet(b))
    ensures DropSubsumed(DropSubsumed(l)) == DropSubsumed(l)
  {
    var r := DropSubsumed(l);
    DropSubsumedOutcome(l);
    forall t | t in r ensures !Subsumed(r, t) {
      forall u | u in r ensures !(KeySet(t) < KeySet(u)) {
        assert u in l;
      }
    }
    KeepAllMaximal(r, r);
  }

  lemma {:induction false} KeepAllMaximal(src: seq<Topic>, all: seq<Topic>)
    requires forall t :: t in src ==> !Subsumed(all, t)
    ensures KeepMaximal(src, all) == src
  {
    if src != [] {
      assert src[0] in src;
      assert forall t :: t in src[1..] ==> t in src;
      KeepAllMaximal(src[1..], all);
      assert src == [src[0]] + src[1..];
    }
  }

  /** A list of two topics, one strictly inside the other, keeps the larger only. */
  lemma DropSubsumedExample()
    ensures DropSubsumed([["a", "b"], ["a", "b", "c"]]) == [["a", "b", "c"]]
  {
    var l: seq<Topic> := [["a", "b"], ["a", "b", "c"]];
    assert "c" in KeySet(l[1]) && "c" !in KeySet(l[0]);
    assert KeySet(l[0]) < KeySet(l[1]);
    assert Subsumed(l, l[0]);
    assert !Subsumed(l, l[1]) by {
      forall u | u in l ensures !(KeySet(l[1]) < KeySet(u)) {
        assert u == l[0] || u == l[1];
        assert "c" !in KeySet(l[0]);
      }
    }
    assert l[1..][1..] == [];
  }

  // ---------------------------------------------------------------------------
  // Proof support for the in-place removal pass: the live list as a mask over
  // the frozen copy

  function Select(s: seq<Topic>, live: seq<bool>): seq<Topic>
    requires |s| == |live|
  {
    if s == [] then [] else (if live[0] then [s[0]] else []) + Select(s[1..], live[1..])
  }

  lemma {:induction false} SelectAllLive(s: seq<Topic>, live: seq<bool>)
    requires |s| == |live| && forall p :: 0 <= p < |live| ==> live[p]
    ensures Select(s, live) == s
  {
    if s != [] {
      SelectAllLive(s[1..], live[1..]);
      assert s == [s[0]] + s[1..];
    }
  }

  lemma {:induction false} InSelect(s: seq<Topic>, live: seq<bool>, x: Topic)
    requires |s| == |live|
    ensures x in Select(s, live) <==> exists p :: 0 <= p < |s| && live[p] && s[p] == x
  {
    if s != [] {
      InSelect(s[1..], live[1..], x);
      if x in Select(s[1..], live[1..]) {
        var p :| 0 <= p < |s[1..]| && live[1..][p] && s[1..][p] == x;
        assert live[p + 1] && s[p + 1] == x;
      }
      if exists p :: 0 <= p < |s| && live[p] && s[p] == x {
        var p :| 0 <= p < |s| && live[p] && s[p] == x;
        if p > 0 {
          assert live[1..][p - 1] && s[1..][p - 1] == x;
        }
      }
    }
  }

  /** `live` differs from `live0` only by positions cleared: nothing comes back. */
  ghost predicate OnlyCleared(live0: seq<bool>, live: seq<bool>)
  {
    |live| == |live0| && forall p :: 0 <= p < |live| && !live0[p] ==> !live[p]
  }

  /** The first live position holding `x`. */
  ghost function FirstLive(s: seq<Topic>, live: seq<bool>, x: Topic): (f: nat)
    requires |s| == |live|
    requires exists p :: 0 <= p < |s| && live[p] && s[p] == x
    ensures f < |s| && live[f] && s[f] == x
    ensures forall p :: 0 <= p < f && s[p] == x ==> !live[p]
  {
    if live[0] && s[0] == x then 0
    else
      var p :| 0 <= p < |s| && live[p] && s[p] == x;
      assert p > 0 && live[1..][p - 1] && s[1..][p - 1] == x;
      var f := FirstLive(s[1..], live[1..], x);
      assert forall p :: 1 <= p < f + 1 && s[p] == x ==> !live[p] by {
        forall p | 1 <= p < f + 1 && s[p] == x ensures !live[p] {
          assert s[1..][p - 1] == x;
        }
      }
      1 + f
  }

  /** `list.remove` on the live list kills the first live copy. */
  lemma {:induction false} RemoveFirstLive(s: seq<Topic>, live: seq<bool>, f: nat)
    requires |s| == |live| && f < |s| && live[f]
    requires forall p :: 0 <= p < f && s[p] == s[f] ==> !live[p]
    ensures s[f] in Select(s, live)
    ensures RemoveFirst(Select(s, live), s[f]) == Select(s, live[f := false])
  {
    var x := s[f];
    var rest := Select(s[1..], live[1..]);
    var killed := live[f := false];
    assert killed[1..] == if f == 0 then live[1..] else live[1..][f - 1 := false];
    if f == 0 {
      assert Select(s, live) == [x] + rest;
      assert Select(s, killed) == rest;
    } else {
      assert s[1..][f - 1] == x;
      assert forall p :: 0 <= p < f - 1 && s[1..][p] == x ==> !live[1..][p] by {
        forall p | 0 <= p < f - 1 && s[1..][p] == x ensures !live[1..][p] {
          assert s[p + 1] == x;
        }
      }
      RemoveFirstLive(s[1..], live[1..], f - 1);
      assert RemoveFirst(rest, x) == Select(s[1..], killed[1..]);
      if live[0] {
        assert s[0] != x;
        var l := [s[0]] + rest;
        assert Select(s, live) == l;
        assert l[1..] == rest;
        assert RemoveFirst(l, x) == [s[0]] + RemoveFirst(rest, x);
      } else {
        assert Select(s, live) == rest;
      }
    }
  }

  lemma {:induction false} SelectMaximal(s: seq<Topic>, live: seq<bool>, all: seq<Topic>)
    requires |s| == |live|
    requires forall p :: 0 <= p < |s| ==> (live[p] <==> !Subsumed(all, s[p]))
    ensures Select(s, live) == KeepMaximal(s, all)
  {
    if s != [] {
      SelectMaximal(s[1..], live[1..], all);
    }
  }

  /** Largest keyword-set size among the entries. */
  function MaxCard(l: seq<Topic>): (m: nat)
    ensures forall u :: u in l ==> |KeySet(u)| <= m
  {
    if l == [] then 0
    else
      var rest := MaxCard(l[1..]);
      assert forall u :: u in l ==> u == l[0] || u in l[1..];
      if |KeySet(l[0])| > rest then |KeySet(l[0])| else rest
  }

  /** A subsumed entry lies strictly inside some entry that is not subsumed. */
  lemma MaximalAbove(l: seq<Topic>, t: Topic) returns (m: nat)
    requires Subsumed(l, t)
    ensures m < |l| && KeySet(t) < KeySet(l[m]) && !Subsumed(l, l[m])
    decreases MaxCard(l) - |KeySet(t)|
  {
    var u :| u in l && KeySet(t) < KeySet(u);
    StrictSubsetSmaller(KeySet(t), KeySet(u));
    var i :| 0 <= i < |l| && l[i] == u;
    if !Subsumed(l, u) {
      m := i;
    } else {
      m := MaximalAbove(l, u);
    }
  }
}
