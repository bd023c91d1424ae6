/**
 * The crawl coordinator: the frontier (pending URLs, visited set, count of
 * accepted reports, workers in flight), the dispatch loop's step, the
 * callback through which workers report, and the exhaustion test.
 *
 * Thread interleavings are a sequence of `Step`s chosen freely: a dispatch
 * attempt, or one in-flight worker finishing with its reports. The pool's
 * approximate active count is the exact set `inFlight`. `dispatched` logs
 * every URL handed to a worker and `sink` every record handed to the
 * database, so that the frontier's guarantees can be stated over them.
 */
module ParallelCrawlerHandler {
  import opened Wrappers
  import opened Seqs
  import opened Decimal
  import opened Urls
  import opened CrawlEntry
  import opened WebCrawler

  /** Above this many pending entries the dispatch step compacts the list. */
  const CompactionThreshold := 500

  datatype Frontier = Frontier(
    pending: seq<string>,
    visited: set<string>,
    count: nat,
    inFlight: set<string>,
    maxUrls: int,
    maxThreads: int,
    dispatched: seq<string>,
    sink: seq<CtfCrawlEntry>)

  /** The frontier's invariant. */
  predicate Valid(st: Frontier)
  {
    && NoDup(st.dispatched)
    && (forall u :: u in st.dispatched ==> u in st.visited)
    && (forall u :: u in st.inFlight ==> u in st.dispatched)
    && (st.count == 0 || st.count <= st.maxUrls)
    && |st.sink| <= st.count
  }

  /** The entries of `urls` not in `visited`, in order, duplicates kept. */
  function Unvisited(visited: set<string>, urls: seq<string>): seq<string>
  {
    if urls == [] then []
    else
      var last := urls[|urls| - 1];
      Unvisited(visited, urls[..|urls| - 1]) + (if last in visited then [] else [last])
  }

  /**
   * What is left of a list once visited entries are dropped: each unvisited
   * entry exactly as often as before, no visited entry at all.
   */
  lemma {:induction false} UnvisitedCounts(visited: set<string>, urls: seq<string>)
    ensures forall u :: multiset(Unvisited(visited, urls))[u] == (if u in visited then 0 else multiset(urls)[u])
    ensures forall u :: u in Unvisited(visited, urls) <==> u in urls && u !in visited
    decreases |urls|
  {
    if urls != [] {
      var init := urls[..|urls| - 1];
      var last := urls[|urls| - 1];
      UnvisitedCounts(visited, init);
      assert urls == init + [last];
    }
  }

  /** Dropping visited entries keeps the order of the rest. */
  lemma {:induction false} UnvisitedAppend(visited: set<string>, a: seq<string>, b: seq<string>)
    ensures Unvisited(visited, a + b) == Unvisited(visited, a) + Unvisited(visited, b)
    decreases |b|
  {
    if b == [] {
      assert a + b == a;
    } else {
      var init := b[..|b| - 1];
      assert (a + b)[..|a + b| - 1] == a + init;
      UnvisitedAppend(visited, a, init);
    }
  }

  /** Dropping visited entries twice drops nothing more. */
  lemma {:induction false} UnvisitedIdempotent(visited: set<string>, urls: seq<string>)
    ensures Unvisited(visited, Unvisited(visited, urls)) == Unvisited(visited, urls)
    decreases |urls|
  {
    if urls != [] {
      var init := urls[..|urls| - 1];
      var last := urls[|urls| - 1];
      UnvisitedIdempotent(visited, init);
      var tail := if last in visited then [] else [last];
      UnvisitedAppend(visited, Unvisited(visited, init), tail);
      assert Unvisited(visited, tail) == tail by {
        if last !in visited {
          assert tail[..0] == [];
        }
      }
    }
  }

  /** A list whose every entry is visited compacts to nothing. */
  lemma UnvisitedOfVisited(visited: set<string>, urls: seq<string>)
    requires forall u :: u in urls ==> u in visited
    ensures Unvisited(visited, urls) == []
  {
    UnvisitedCounts(visited, urls);
    var r := Unvisited(visited, urls);
    if r != [] {
      assert false;
    }
  }

  /**
   * `addToCrawlingUrls`: nothing for `null`; otherwise the entries not yet
   * visited are appended in order, duplicates kept, and nothing else changes.
   */
  function AddToCrawlingUrls(st: Frontier, urls: Option<seq<string>>): (r: Frontier)
    ensures urls.None? ==> r == st
    ensures r == st.(pending := r.pending)
    ensures |st.pending| <= |r.pending| && r.pending[..|st.pending|] == st.pending
  {
    match urls
    case None => st
    case Some(list) =>
      st.(pending := st.pending + Unvisited(st.visited, list))
  }

  /**
   * What `addToCrawlingUrls` appends: each URL of the list not yet visited,
   * exactly as often as the list holds it, and no visited URL.
   */
  lemma AddToCrawlingUrlsCounts(st: Frontier, list: seq<string>)
    ensures var r := AddToCrawlingUrls(st, Some(list));
            forall u :: multiset(r.pending[|st.pending|..])[u] == (if u in st.visited then 0 else multiset(list)[u])
  {
    var r := AddToCrawlingUrls(st, Some(list));
    assert r.pending[|st.pending|..] == Unvisited(st.visited, list);
    UnvisitedCounts(st.visited, list);
  }

  /** Merging two lists one after the other is merging their concatenation. */
  lemma MergeInOrder(st: Frontier, a: seq<string>, b: seq<string>)
    ensures AddToCrawlingUrls(AddToCrawlingUrls(st, Some(a)), Some(b)) == AddToCrawlingUrls(st, Some(a + b))
  {
    var mid := AddToCrawlingUrls(st, Some(a));
    MergedPending(st, a);
    MergedPending(mid, b);
    MergedPending(st, a + b);
    UnvisitedAppend(st.visited, a, b);
    var ua, ub := Unvisited(st.visited, a), Unvisited(st.visited, b);
    assert st.pending + ua + ub == st.pending + (ua + ub);
  }

  lemma MergedPending(st: Frontier, list: seq<string>)
    ensures AddToCrawlingUrls(st, Some(list)).pending == st.pending + Unvisited(st.visited, list)
  {
  }

  /** The frontier built from the seed list, before anything is visited. */
  function Init(seeds: Option<seq<string>>, maxUrls: int, maxThreads: int): (st: Frontier)
    ensures Valid(st)
    ensures st.pending == (if seeds.Some? then seeds.value else [])
    ensures st.visited == {} && st.count == 0 && st.inFlight == {} && st.dispatched == [] && st.sink == []
  {
    var empty := Frontier([], {}, 0, {}, maxUrls, maxThreads, [], []);
    var st := AddToCrawlingUrls(empty, seeds);
    match seeds
    case None => st
    case Some(list) => UnvisitedOfNothing(list); st
  }

  lemma {:induction false} UnvisitedOfNothing(urls: seq<string>)
    ensures Unvisited({}, urls) == urls
    decreases |urls|
  {
    if urls != [] {
      UnvisitedOfNothing(urls[..|urls| - 1]);
    }
  }

  /**
   * Compaction: once more than 500 entries are pending, every visited entry
   * is removed; the rest keep their order and nothing else changes.
   */
  function Compact(st: Frontier): (r: Frontier)
    ensures r == st.(pending := r.pending)
    ensures |st.pending| <= CompactionThreshold ==> r == st
  {
    if |st.pending| > CompactionThreshold then st.(pending := Unvisited(st.visited, st.pending))
    else st
  }

  /**
   * What compaction keeps: above the threshold, each unvisited entry exactly
   * as often as before and no visited entry; below it, everything.
   */
  lemma CompactCounts(st: Frontier)
    ensures forall u :: multiset(Compact(st).pending)[u]
                     == (if |st.pending| > CompactionThreshold && u in st.visited then 0 else multiset(st.pending)[u])
  {
    UnvisitedCounts(st.visited, st.pending);
  }

  /** What one iteration of the dispatch loop did. */
  datatype DispatchResult =
    | Idle                        // nothing pending or every worker busy
    | Skipped(url: string)        // head already visited: dropped
    | Submitted(url: string)      // head marked visited and handed to a new worker
    | Malformed(url: string)      // head marked visited, then the worker's URI failed to parse
    | IndexOutOfBounds            // `get(0)` on an empty list

  /** Pops the head; submits it only when it was not visited, marking it visited first. */
  function PopHead(parse: Parser, st: Frontier): (r: (Frontier, DispatchResult))
    requires |st.pending| > 0
    ensures r.1.Skipped? || r.1.Submitted? || r.1.Malformed?
    ensures r.1.url == st.pending[0] && r.0.pending == st.pending[1..]
    ensures r.0.count == st.count && r.0.sink == st.sink
    ensures r.0.maxUrls == st.maxUrls && r.0.maxThreads == st.maxThreads
    ensures r.1.Skipped? <==> st.pending[0] in st.visited
    ensures r.1.Skipped? ==> r.0.visited == st.visited
    ensures !r.1.Skipped? ==> r.0.visited == st.visited + {st.pending[0]}
    ensures r.1.Submitted? ==> && r.0.inFlight == st.inFlight + {r.1.url}
                               && r.0.dispatched == st.dispatched + [r.1.url]
    ensures !r.1.Submitted? ==> r.0.inFlight == st.inFlight && r.0.dispatched == st.dispatched
  {
    var url := st.pending[0];
    var rest := st.(pending := st.pending[1..]);
    if url in st.visited then (rest, Skipped(url))
    else
      var marked := rest.(visited := st.visited + {url});
      if parse(url).None? then (marked, Malformed(url))
      else (marked.(inFlight := st.inFlight + {url}, dispatched := st.dispatched + [url]), Submitted(url))
  }

  /**
   * One iteration of `beginCrawl`'s loop body as written: idle when nothing
   * is pending or all workers are busy; otherwise compact, then take the
   * head, which fails when compaction emptied the list.
   */
  function DispatchStepAsWritten(parse: Parser, st: Frontier): (Frontier, DispatchResult)
  {
    if |st.pending| == 0 || |st.inFlight| >= st.maxThreads then (st, Idle)
    else
      var compacted := Compact(st);
      if |compacted.pending| == 0 then (compacted, IndexOutOfBounds)
      else PopHead(parse, compacted)
  }

  /** When compaction leaves nothing, the written loop body indexes an empty list. */
  lemma CompactionEmptiesThenIndexFails(parse: Parser, st: Frontier, url: string)
    requires |st.pending| == CompactionThreshold + 1
    requires forall i :: 0 <= i < |st.pending| ==> st.pending[i] == url
    requires url in st.visited
    requires |st.inFlight| < st.maxThreads
    ensures DispatchStepAsWritten(parse, st).1 == IndexOutOfBounds
  {
    UnvisitedOfVisited(st.visited, st.pending);
  }

  /** A list with nothing visited is kept whole. */
  lemma {:induction false} UnvisitedOfFresh(visited: set<string>, urls: seq<string>)
    requires forall u :: u in urls ==> u !in visited
    ensures Unvisited(visited, urls) == urls
    decreases |urls|
  {
    if urls != [] {
      UnvisitedOfFresh(visited, urls[..|urls| - 1]);
    }
  }

  /**
   * The failure is reachable from a seeded frontier with two workers: the
   * seed's page links 502 times to one new URL; the first dispatch submits
   * it and leaves 501 visited copies behind, which compaction then removes
   * all at once while the crawl loop is still running.
   */
  lemma ReachableIndexOutOfBounds(parse: Parser)
    requires forall u :: parse(u).Some?
    ensures var links := seq(502, _ => "https://a.test/y");
      var st := RunSteps(parse, Init(Some(["https://a.test/"]), 10, 2),
                         [DispatchNext, Finish("https://a.test/", 0, Fetched(links, None)), DispatchNext]);
      && ContinueCrawl(st)
      && DispatchStepAsWritten(parse, st).1 == IndexOutOfBounds
  {
    var seed := "https://a.test/";
    var links := seq(502, _ => "https://a.test/y");
    var st3 := TraceRun(parse, seed, "https://a.test/y", links);
    TraceFails(parse, st3, seed, "https://a.test/y", links);
  }

  /** The frontier the trace ends in continues the crawl, and its next iteration fails. */
  lemma TraceFails(parse: Parser, st3: Frontier, seed: string, y: string, links: seq<string>)
    requires |links| == 502 && forall i :: 0 <= i < 502 ==> links[i] == y
    requires st3 == Frontier(links[1..], {seed, y}, 1, {y}, 10, 2, [seed, y], [])
    ensures ContinueCrawl(st3)
    ensures DispatchStepAsWritten(parse, st3).1 == IndexOutOfBounds
  {
    UnvisitedOfVisited(st3.visited, st3.pending);
    assert |st3.inFlight| == 1;
    assert Compact(st3).pending == [];
  }

  /** The frontier after the three steps of the trace. */
  lemma TraceRun(parse: Parser, seed: string, y: string, links: seq<string>) returns (st3: Frontier)
    requires parse(seed).Some? && parse(y).Some? && y != seed
    requires |links| == 502 && forall i :: 0 <= i < 502 ==> links[i] == y
    ensures st3 == Frontier(links[1..], {seed, y}, 1, {y}, 10, 2, [seed, y], [])
    ensures RunSteps(parse, Init(Some([seed]), 10, 2), [DispatchNext, Finish(seed, 0, Fetched(links, None)), DispatchNext]) == st3
  {
    var steps := [DispatchNext, Finish(seed, 0, Fetched(links, None)), DispatchNext];
    var st0 := Init(Some([seed]), 10, 2);
    var st1 := TraceFirstDispatch(parse, seed);
    var st2 := TraceReport(st1, seed, links);
    st3 := TraceSecondDispatch(parse, st2, seed, y);
    assert steps[1..] == [Finish(seed, 0, Fetched(links, None)), DispatchNext];
    assert steps[1..][1..] == [DispatchNext];
    assert steps[1..][1..][1..] == [];
    calc {
      RunSteps(parse, st0, steps);
      RunSteps(parse, st1, steps[1..]);
      RunSteps(parse, st2, steps[1..][1..]);
      RunSteps(parse, st3, []);
    }
  }

  lemma TraceFirstDispatch(parse: Parser, seed: string) returns (st1: Frontier)
    requires parse(seed).Some?
    ensures st1 == Frontier([], {seed}, 0, {seed}, 10, 2, [seed], [])
    ensures Next(parse, Init(Some([seed]), 10, 2), DispatchNext) == st1
  {
    st1 := Frontier([], {seed}, 0, {seed}, 10, 2, [seed], []);
    var st0 := SeededFrontier(seed);
    PopSeed(parse, seed);
    assert DispatchStep(parse, st0) == PopHead(parse, st0);
  }

  /** The frontier seeded with one URL, compaction leaving it alone. */
  lemma SeededFrontier(seed: string) returns (st0: Frontier)
    ensures st0 == Frontier([seed], {}, 0, {}, 10, 2, [], [])
    ensures Init(Some([seed]), 10, 2) == st0
    ensures Compact(st0) == st0
  {
    st0 := Frontier([seed], {}, 0, {}, 10, 2, [], []);
  }

  /** Popping the seed submits it. */
  lemma PopSeed(parse: Parser, seed: string)
    requires parse(seed).Some?
    ensures PopHead(parse, Frontier([seed], {}, 0, {}, 10, 2, [], []))
         == (Frontier([], {seed}, 0, {seed}, 10, 2, [seed], []), Submitted(seed))
  {
    assert {} + {seed} == {seed};
    assert [] + [seed] == [seed];
  }

  lemma TraceReport(st1: Frontier, seed: string, links: seq<string>) returns (st2: Frontier)
    requires st1 == Frontier([], {seed}, 0, {seed}, 10, 2, [seed], [])
    requires forall u :: u in links ==> u != seed
    ensures st2 == Frontier(links, {seed}, 1, {}, 10, 2, [seed], [])
    ensures Complete(st1, seed, 0, Fetched(links, None)) == st2
  {
    st2 := Frontier(links, {seed}, 1, {}, 10, 2, [seed], []);
    UnvisitedOfFresh({seed}, links);
    var report := Report(seed, 0, Some(links), None);
    assert Reports(seed, 0, Fetched(links, None)) == [report];
    var left := st1.(inFlight := {});
    assert Complete(st1, seed, 0, Fetched(links, None)) == AddCrawledUrls(left, report);
    var marked := Frontier([], {seed}, 1, {}, 10, 2, [seed], []);
    assert left.visited + {seed} == {seed};
    assert left.(visited := left.visited + {seed}, count := left.count + 1) == marked;
    assert AddCrawledUrls(left, report) == AddToCrawlingUrls(marked, Some(links));
    assert AddToCrawlingUrls(marked, Some(links)) == marked.(pending := [] + Unvisited({seed}, links));
    assert [] + links == links;
  }

  lemma TraceSecondDispatch(parse: Parser, st2: Frontier, seed: string, y: string) returns (st3: Frontier)
    requires parse(y).Some? && y != seed
    requires |st2.pending| == 502 && forall i :: 0 <= i < 502 ==> st2.pending[i] == y
    requires st2 == Frontier(st2.pending, {seed}, 1, {}, 10, 2, [seed], [])
    ensures st3 == Frontier(st2.pending[1..], {seed, y}, 1, {y}, 10, 2, [seed, y], [])
    ensures Next(parse, st2, DispatchNext) == st3
  {
    st3 := Frontier(st2.pending[1..], {seed, y}, 1, {y}, 10, 2, [seed, y], []);
    UnvisitedOfFresh({seed}, st2.pending);
    assert Compact(st2) == st2;
    assert {seed} + {y} == {seed, y};
    assert {} + {y} == {y};
    assert [seed] + [y] == [seed, y];
    assert PopHead(parse, st2) == (st3, Submitted(y));
  }

  /**
   * The dispatch step with the emptiness test repeated after compaction:
   * an emptied list makes the iteration idle instead of failing.
   */
  function DispatchStep(parse: Parser, st: Frontier): (r: (Frontier, DispatchResult))
    ensures r.1 != IndexOutOfBounds
    ensures |st.pending| == 0 || |st.inFlight| >= st.maxThreads ==> r == (st, Idle)
    ensures r.0.count == st.count && r.0.sink == st.sink
    ensures r.0.maxUrls == st.maxUrls && r.0.maxThreads == st.maxThreads
    ensures r.1.Submitted? ==> && r.1.url !in st.visited
                               && r.0.visited == st.visited + {r.1.url}
                               && r.0.inFlight == st.inFlight + {r.1.url}
                               && r.0.dispatched == st.dispatched + [r.1.url]
                               && [r.1.url] + r.0.pending == Compact(st).pending
    ensures r.1.Submitted? || r.1.Skipped? || r.1.Malformed? ==> |Compact(st).pending| > 0
    ensures !r.1.Submitted? ==> r.0.inFlight == st.inFlight && r.0.dispatched == st.dispatched
    ensures r.1.Skipped? ==> r.1.url in st.visited && r.0.visited == st.visited
    ensures st.visited <= r.0.visited
  {
    if |st.pending| == 0 || |st.inFlight| >= st.maxThreads then (st, Idle)
    else
      var compacted := Compact(st);
      if |compacted.pending| == 0 then (compacted, Idle)
      else
        PopHead(parse, compacted)
  }

  /** The corrected step agrees with the written one whenever the latter does not fail. */
  lemma DispatchStepRefinesWritten(parse: Parser, st: Frontier)
    requires DispatchStepAsWritten(parse, st).1 != IndexOutOfBounds
    ensures DispatchStep(parse, st) == DispatchStepAsWritten(parse, st)
  {
  }

  /** With nothing pending, or every worker busy, a loop iteration changes nothing. */
  lemma IdleIterationChangesNothing(parse: Parser, st: Frontier)
    requires |st.pending| == 0 || |st.inFlight| >= st.maxThreads
    ensures DispatchStep(parse, st).0 == st
  {
  }

  /** No URL is ever handed to a second worker, and the invariant survives dispatch. */
  lemma DispatchPreservesValid(parse: Parser, st: Frontier)
    requires Valid(st)
    ensures Valid(DispatchStep(parse, st).0)
  {
    var (r, result) := DispatchStep(parse, st);
    if result.Submitted? {
      NoDupSnoc(st.dispatched, result.url);
    }
  }

  /**
   * `addCrawledUrls`: a no-op once the budget is used up; otherwise the URL
   * is marked visited, the count grows by one, a record goes to the sink
   * only when tags came back, and the links are merged behind the pending
   * entries, skipping visited ones (the reported URL included).
   */
  function AddCrawledUrls(st: Frontier, report: Report): (r: Frontier)
    ensures st.count >= st.maxUrls ==> r == st
    ensures st.count < st.maxUrls ==> && r.count == st.count + 1
                                      && r.visited == st.visited + {report.url}
                                      && r.inFlight == st.inFlight
                                      && r.dispatched == st.dispatched
                                      && r.maxUrls == st.maxUrls && r.maxThreads == st.maxThreads
    ensures |st.pending| <= |r.pending| && r.pending[..|st.pending|] == st.pending
    ensures st.count < st.maxUrls && report.links.None? ==> r.pending == st.pending
    ensures |st.sink| <= |r.sink| && r.sink[..|st.sink|] == st.sink
    ensures st.count < st.maxUrls ==> |r.sink| == |st.sink| + (if report.tags.Some? then 1 else 0)
    ensures st.count < st.maxUrls && report.tags.Some? ==>
              r.sink[|st.sink|] == CtfCrawlEntry(report.url, IntToDecimal(report.serverRT), report.tags)
  {
    if st.count >= st.maxUrls then st
    else
      var marked := st.(visited := st.visited + {report.url}, count := st.count + 1);
      var logged := match report.tags
        case None => marked
        case Some(_) => marked.(sink := marked.sink + [CtfCrawlEntry(report.url, IntToDecimal(report.serverRT), report.tags)]);
      AddToCrawlingUrls(logged, report.links)
  }

  /**
   * The links an accepted report merges: each one neither visited nor the
   * reported URL itself, exactly as often as the report holds it.
   */
  lemma AddCrawledUrlsMerges(st: Frontier, report: Report)
    requires st.count < st.maxUrls && report.links.Some?
    ensures var r := AddCrawledUrls(st, report);
            forall u :: (multiset(r.pending[|st.pending|..])[u]
                         == if u in st.visited || u == report.url then 0 else multiset(report.links.value)[u])
  {
    var marked := st.(visited := st.visited + {report.url}, count := st.count + 1);
    var logged := match report.tags
      case None => marked
      case Some(_) => marked.(sink := marked.sink + [CtfCrawlEntry(report.url, IntToDecimal(report.serverRT), report.tags)]);
    AddToCrawlingUrlsCounts(logged, report.links.value);
  }

  /** Accepted reports keep the invariant: the budget is never exceeded. */
  lemma AddCrawledUrlsPreservesValid(st: Frontier, report: Report)
    requires Valid(st)
    ensures Valid(AddCrawledUrls(st, report))
  {
  }

  /**
   * The worker for `url` makes its at most one report and leaves the pool;
   * nothing happens for a URL without a worker.
   */
  function Complete(st: Frontier, url: string, serverRT: int, outcome: CrawlOutcome): (r: Frontier)
    ensures url !in st.inFlight ==> r == st
    ensures url in st.inFlight ==> && url !in r.inFlight
                                   && r.inFlight == st.inFlight - {url}
                                   && st.count <= r.count <= st.count + 1
                                   && |st.sink| <= |r.sink| <= |st.sink| + 1
                                   && r.dispatched == st.dispatched
    ensures r.maxUrls == st.maxUrls && r.maxThreads == st.maxThreads
  {
    if url !in st.inFlight then st
    else
      var left := st.(inFlight := st.inFlight - {url});
      var reports := Reports(url, serverRT, outcome);
      if reports == [] then left else AddCrawledUrls(left, reports[0])
  }

  /** Once the budget is used up, a finishing worker only leaves the pool. */
  lemma LateCompletionDropped(st: Frontier, url: string, serverRT: int, outcome: CrawlOutcome)
    requires st.count >= st.maxUrls
    requires url in st.inFlight
    ensures Complete(st, url, serverRT, outcome) == st.(inFlight := st.inFlight - {url})
  {
  }

  /** A failed fetch uses up a budget slot, marks the URL visited, and adds nothing else. */
  lemma FailureConsumesBudget(st: Frontier, url: string, serverRT: int)
    requires url in st.inFlight
    requires st.count < st.maxUrls
    ensures Complete(st, url, serverRT, Failed)
         == st.(inFlight := st.inFlight - {url}, visited := st.visited + {url}, count := st.count + 1)
  {
  }

  lemma CompletePreservesValid(st: Frontier, url: string, serverRT: int, outcome: CrawlOutcome)
    requires Valid(st)
    ensures Valid(Complete(st, url, serverRT, outcome))
  {
    if url in st.inFlight {
      var reports := Reports(url, serverRT, outcome);
      var left := st.(inFlight := st.inFlight - {url});
      assert Valid(left);
      if reports != [] {
        AddCrawledUrlsPreservesValid(left, reports[0]);
      }
    }
  }

  /** `isCrawlerExhausted`: nothing pending and no worker active. */
  predicate IsCrawlerExhausted(st: Frontier)
  {
    |st.pending| == 0 && |st.inFlight| == 0
  }

  /** The loop condition of `beginCrawl`. */
  predicate ContinueCrawl(st: Frontier)
  {
    st.count < st.maxUrls && !IsCrawlerExhausted(st)
  }

  /** An exhausted frontier stays as it is under any dispatch attempt, so the loop ends. */
  lemma ExhaustedIsStable(parse: Parser, st: Frontier)
    requires IsCrawlerExhausted(st)
    ensures !ContinueCrawl(st)
    ensures DispatchStep(parse, st) == (st, Idle)
  {
  }

  /** One scheduling choice: a dispatch attempt, or a worker finishing. */
  datatype Step = DispatchNext | Finish(url: string, serverRT: int, outcome: CrawlOutcome)

  function Next(parse: Parser, st: Frontier, step: Step): Frontier
  {
    match step
    case DispatchNext => DispatchStep(parse, st).0
    case Finish(url, serverRT, outcome) => Complete(st, url, serverRT, outcome)
  }

  /** Any interleaving of steps, applied in order. */
  function RunSteps(parse: Parser, st: Frontier, steps: seq<Step>): Frontier
    decreases |steps|
  {
    if steps == [] then st else RunSteps(parse, Next(parse, st, steps[0]), steps[1..])
  }

  /**
   * Whatever the interleaving, from the seeded frontier: no URL is
   * dispatched twice, every dispatched URL is visited, the count stays within
   * the budget, and the sink holds at most one record per counted report.
   */
  lemma {:induction false} RunPreservesValid(parse: Parser, st: Frontier, steps: seq<Step>)
    requires Valid(st)
    ensures Valid(RunSteps(parse, st, steps))
    decreases |steps|
  {
    if steps != [] {
      match steps[0] {
        case DispatchNext => DispatchPreservesValid(parse, st);
        case Finish(url, serverRT, outcome) => CompletePreservesValid(st, url, serverRT, outcome);
      }
      RunPreservesValid(parse, Next(parse, st, steps[0]), steps[1..]);
    }
  }

  lemma NoDuplicateDispatch(parse: Parser, seeds: Option<seq<string>>, maxUrls: int, maxThreads: int, steps: seq<Step>)
    ensures var st := RunSteps(parse, Init(seeds, maxUrls, maxThreads), steps);
      && NoDup(st.dispatched)
      && (st.count == 0 || st.count <= maxUrls)
      && |st.sink| <= st.count
  {
    RunPreservesValid(parse, Init(seeds, maxUrls, maxThreads), steps);
    RunKeepsConfiguration(parse, Init(seeds, maxUrls, maxThreads), steps);
  }

  lemma {:induction false} RunKeepsConfiguration(parse: Parser, st: Frontier, steps: seq<Step>)
    ensures RunSteps(parse, st, steps).maxUrls == st.maxUrls
    decreases |steps|
  {
    if steps != [] {
      var next := Next(parse, st, steps[0]);
      RunKeepsConfiguration(parse, next, steps[1..]);
    }
  }

  /** The updater's tally: callbacks received, domains and labels collected. */
  datatype UpdateTally = UpdateTally(updateCounts: nat, domains: set<string>, categories: set<string>)

  /** `addDomainsAndCategories`: counts the call and merges whichever sets are not `null`. */
  function AddDomainsAndCategories(t: UpdateTally, domains: Option<set<string>>, categories: Option<set<string>>): (r: UpdateTally)
    ensures r.updateCounts == t.updateCounts + 1
    ensures forall d :: d in r.domains <==> d in t.domains || (domains.Some? && d in domains.value)
    ensures forall c :: c in r.categories <==> c in t.categories || (categories.Some? && c in categories.value)
  {
    UpdateTally(
      t.updateCounts + 1,
      t.domains + (match domains case Some(d) => d case None => {}),
      t.categories + (match categories case Some(c) => c case None => {}))
  }

}
