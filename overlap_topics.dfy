/** The topic validator of one year. Its inputs are the influenced-node map of a
    spread-of-influence run (iteration label -> keywords reached in that
    iteration) and the communities that the clique percolation method finds on
    the subgraph induced by those keywords. It accepts the communities as topics
    only if each contains a seed keyword, there are at most `k` of them, and their
    sizes add up to the number of influenced keywords. */
module TopicOverlap {
  import opened Sequences

  /** One entry of the influenced-node map, in the map's insertion order. */
  datatype Iteration = Iteration(key: string, nodes: seq<Keyword>)

  /** The exceptions the validator can raise. */
  datatype TopicError =
    | TopicMalFormed
    | TopicNotAllKeywordsUsed
    | TopicTooMany
      /** A `KeyError` on a dictionary lookup. */
    | MissingKey(key: string)
      /** A `NameError` on an identifier that is not in scope. */
    | UndefinedName(name: string)

  /** A check either passes or raises one error. */
  datatype Outcome = Pass | Fail(error: TopicError)

  /** The iteration whose nodes are the seeds of the spread: the top-k keywords. */
  const SeedLabel: string := "iteration 0"

  /** `all_topics[key]`, or `None` when the key is missing. */
  function Lookup(its: seq<Iteration>, key: string): (r: Option<seq<Keyword>>)
    ensures r.None? <==> forall n :: 0 <= n < |its| ==> its[n].key != key
    ensures r.Some? ==> exists n :: 0 <= n < |its| && its[n].key == key && its[n].nodes == r.value
  {
    if its == [] then None
    else if its[0].key == key then Some(its[0].nodes)
    else
      var r := Lookup(its[1..], key);
      assert forall n :: 1 <= n < |its| ==> its[n] == its[1..][n - 1];
      r
  }

  /** The keywords of every iteration, concatenated in the map's order. */
  function Concat(its: seq<Iteration>): seq<Keyword>
  {
    if its == [] then [] else Concat(its[..|its| - 1]) + its[|its| - 1].nodes
  }

  /** The sum of the iteration-list lengths. */
  function TotalNodes(its: seq<Iteration>): nat
  {
    if its == [] then 0 else TotalNodes(its[..|its| - 1]) + |its[|its| - 1].nodes|
  }

  /** The sum of the topic lengths. */
  function TotalLength(ts: seq<Topic>): nat
  {
    if ts == [] then 0 else TotalLength(ts[..|ts| - 1]) + |ts[|ts| - 1]|
  }

  /** The sum of the community sizes. */
  function TotalSize(cs: seq<set<Keyword>>): nat
  {
    if cs == [] then 0 else TotalSize(cs[..|cs| - 1]) + |cs[|cs| - 1]|
  }

  /** The keyword universe is as long as the count the coverage check uses. */
  lemma {:induction false} ConcatLength(its: seq<Iteration>)
    ensures |Concat(its)| == TotalNodes(its)
  {
    if its != [] {
      ConcatLength(its[..|its| - 1]);
    }
  }

  /** A keyword is in the universe iff some iteration reached it. */
  lemma {:induction false} ConcatMembers(its: seq<Iteration>, x: Keyword)
    ensures x in Concat(its) <==> exists n :: 0 <= n < |its| && x in its[n].nodes
  {
    if its != [] {
      var front := its[..|its| - 1];
      ConcatMembers(front, x);
      assert forall n :: 0 <= n < |front| ==> front[n] == its[n];
      if x in its[|its| - 1].nodes {
        assert x in Concat(its);
      }
    }
  }

  /** `topic` has a keyword among `seeds`. */
  predicate HasSeed(topic: set<Keyword>, seeds: seq<Keyword>)
  {
    exists kw :: kw in topic && kw in seeds
  }

  /** What the keyword check decides for one community. The key of the seed
      iteration is looked up only while a keyword is examined, so an empty
      community is malformed even when that key is missing. */
  function KeywordCheck(its: seq<Iteration>, topic: set<Keyword>): (r: Outcome)
    ensures r == Pass <==> Lookup(its, SeedLabel).Some? && HasSeed(topic, Lookup(its, SeedLabel).value)
    ensures r == Fail(MissingKey(SeedLabel)) <==> topic != {} && Lookup(its, SeedLabel).None?
    ensures r.Fail? ==> r.error == TopicMalFormed || r.error == MissingKey(SeedLabel)
  {
    if topic == {} then Fail(TopicMalFormed)
    else match Lookup(its, SeedLabel)
      case None => Fail(MissingKey(SeedLabel))
      case Some(seeds) => if HasSeed(topic, seeds) then Pass else Fail(TopicMalFormed)
  }

  /** How many leading communities pass the keyword check. */
  function AcceptedPrefix(its: seq<Iteration>, cs: seq<set<Keyword>>): (j: nat)
    ensures j <= |cs|
    ensures forall n :: 0 <= n < j ==> KeywordCheck(its, cs[n]) == Pass
    ensures j < |cs| ==> KeywordCheck(its, cs[j]).Fail?
  {
    if cs == [] || KeywordCheck(its, cs[0]).Fail? then 0
    else
      var j := 1 + AcceptedPrefix(its, cs[1..]);
      assert forall n :: 1 <= n < |cs| ==> cs[n] == cs[1..][n - 1];
      j
  }

  /** `ts[n]` is `list(cs[n])` for every `n`: the same keywords, once each. */
  predicate ListsOf(ts: seq<Topic>, cs: seq<set<Keyword>>)
  {
    |ts| == |cs| && forall n :: 0 <= n < |ts| ==> KeySet(ts[n]) == cs[n] && NoDuplicates(ts[n])
  }

  /** Listing the communities keeps their total size. */
  lemma {:induction false} ListsOfLength(ts: seq<Topic>, cs: seq<set<Keyword>>)
    requires ListsOf(ts, cs)
    ensures TotalLength(ts) == TotalSize(cs)
  {
    if ts != [] {
      var last := |ts| - 1;
      assert ListsOf(ts[..last], cs[..last]);
      ListsOfLength(ts[..last], cs[..last]);
      DistinctListSize(ts[last]);
    }
  }

  /** A list without duplicates is as long as its set of keywords. */
  lemma {:induction false} DistinctListSize(l: seq<Keyword>)
    requires NoDuplicates(l)
    ensures |KeySet(l)| == |l|
  {
    if l != [] {
      var front := l[..|l| - 1];
      assert NoDuplicates(front);
      DistinctListSize(front);
      assert KeySet(l) == KeySet(front) + {l[|l| - 1]};
      assert l[|l| - 1] !in KeySet(front);
    }
  }

  class OverlapTopics {
    /** `all_topics`: the influenced-node map. */
    const allTopics: seq<Iteration>
    /** The number of topics asked for. */
    const k: int
    /** `list_all_key`: the keywords whose induced subgraph the method runs on. */
    var universe: seq<Keyword>
    /** The accepted topics, in the order the communities were produced. */
    var topics: seq<Topic>

    constructor (allTopics: seq<Iteration>, k: int)
      ensures this.allTopics == allTopics && this.k == k
      ensures universe == [] && topics == []
    {
      this.allTopics := allTopics;
      this.k := k;
      universe := [];
      topics := [];
    }

    /** The accepted topics. */
    function GetTopics(): seq<Topic>
      reads this
    {
      topics
    }

    /** Collects the keywords of every iteration, in the map's order, as the node
        list of the subgraph. */
    method OverlapPreprocessing()
      modifies this`universe
      ensures universe == Concat(allTopics)
    {
      var listAllKey := [];
      var n := 0;
      while n < |allTopics|
        invariant 0 <= n <= |allTopics|
        invariant listAllKey == Concat(allTopics[..n])
      {
        assert allTopics[..n + 1][..n] == allTopics[..n];
        listAllKey := listAllKey + allTopics[n].nodes;
        n := n + 1;
      }
      assert allTopics[..n] == allTopics;
      universe := listAllKey;
    }

    /** Fails with `TopicMalFormed` unless some keyword of `topic` is a seed;
        the seed list is looked up at each keyword examined. */
    method CheckKeywords(topic: set<Keyword>) returns (r: Outcome)
      ensures r == KeywordCheck(allTopics, topic)
    {
      var regular := false;
      var rest := topic;
      while rest != {}
        invariant rest <= topic
        invariant !regular
        invariant rest != topic ==> Lookup(allTopics, SeedLabel).Some?
        invariant forall kw :: kw in topic && kw !in rest ==> kw !in Lookup(allTopics, SeedLabel).value
        decreases |rest|
      {
        var keyword :| keyword in rest;
        var seeds := Lookup(allTopics, SeedLabel);
        if seeds.None? {
          return Fail(MissingKey(SeedLabel));
        }
        if keyword in seeds.value {
          regular := true;
          break;
        }
        rest := rest - {keyword};
      }
      if !regular {
        return Fail(TopicMalFormed);
      }
      return Pass;
    }

    /** Checks the communities in order and appends each accepted one as a list;
        the first rejected one stops the method, and the topics accepted before it
        stay appended. `added` is what was appended. */
    method CliquePercolationMethod(communities: seq<set<Keyword>>) returns (r: Outcome, ghost added: seq<Topic>)
      modifies this`topics
      ensures topics == old(topics) + added
      ensures ListsOf(added, communities[..AcceptedPrefix(allTopics, communities)])
      ensures r == Pass <==> AcceptedPrefix(allTopics, communities) == |communities|
      ensures AcceptedPrefix(allTopics, communities) < |communities| ==>
                r == KeywordCheck(allTopics, communities[AcceptedPrefix(allTopics, communities)])
    {
      added := [];
      var n := 0;
      while n < |communities|
        invariant 0 <= n <= |communities|
        invariant AcceptedPrefix(allTopics, communities) == n + AcceptedPrefix(allTopics, communities[n..])
        invariant topics == old(topics) + added
        invariant ListsOf(added, communities[..n])
      {
        var topic := communities[n];
        assert communities[n..][0] == topic && communities[n..][1..] == communities[n + 1..];
        r := CheckKeywords(topic);
        if r.Fail? {
          return;
        }
        var listed := ListOfSet(topic);
        assert communities[..n + 1] == communities[..n] + [topic];
        topics := topics + [listed];
        added := added + [listed];
        n := n + 1;
      }
      assert communities[..n] == communities;
      r := Pass;
    }

    /** Fails with `TopicNotAllKeywordsUsed` iff the topic sizes do not add up
        to the iteration-list sizes. */
    method CheckSpreadTopics() returns (r: Outcome)
      ensures r == Pass <==> TotalNodes(allTopics) == TotalLength(topics)
      ensures r.Fail? ==> r.error == TopicNotAllKeywordsUsed
    {
      var sizeIteration := 0;
      var n := 0;
      while n < |allTopics|
        invariant 0 <= n <= |allTopics|
        invariant sizeIteration == TotalNodes(allTopics[..n])
      {
        assert allTopics[..n + 1][..n] == allTopics[..n];
        sizeIteration := sizeIteration + |allTopics[n].nodes|;
        n := n + 1;
      }
      assert allTopics[..n] == allTopics;
      var sizeTopics := 0;
      n := 0;
      while n < |topics|
        invariant 0 <= n <= |topics|
        invariant sizeTopics == TotalLength(topics[..n])
      {
        assert topics[..n + 1][..n] == topics[..n];
        sizeTopics := sizeTopics + |topics[n]|;
        n := n + 1;
      }
      assert topics[..n] == topics;
      if sizeIteration != sizeTopics {
        return Fail(TopicNotAllKeywordsUsed);
      }
      return Pass;
    }

    /** The count check as written: its exception class is not in scope in the
        module, so the failing branch raises a `NameError` instead. */
    function CheckNumberTopicsAsWritten(): (r: Outcome)
      reads this
      ensures r == Pass <==> |topics| <= k
      ensures r.Fail? ==> r.error == UndefinedName("TopicTooManyException")
    {
      if |topics| > k then Fail(UndefinedName("TopicTooManyException")) else Pass
    }

    /** The count check as intended: more than `k` topics is `TopicTooMany`. */
    function CheckNumberTopics(): (r: Outcome)
      reads this
      ensures r == Pass <==> |topics| <= k
      ensures r.Fail? ==> r.error == TopicTooMany
    {
      if |topics| > k then Fail(TopicTooMany) else Pass
    }
  }

  /** Whenever the as-written count check fails, it raises a `NameError`
      rather than the `TopicTooMany` error the intended check raises. */
  lemma CountCheckRaisesNameError(o: OverlapTopics)
    requires |o.topics| > o.k
    ensures o.CheckNumberTopicsAsWritten() == Fail(UndefinedName("TopicTooManyException"))
    ensures o.CheckNumberTopics() == Fail(TopicTooMany)
    ensures o.CheckNumberTopicsAsWritten() != o.CheckNumberTopics()
  {
  }
}
