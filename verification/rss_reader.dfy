/**
 * The feed reader: for each feed URL it fetches the feed, keeps the entries
 * whose link is not yet in the database, tags each (the feed's own category
 * names, or the vocabulary matched against the description), times a second
 * request to the entry's link, and writes one record per surviving entry.
 * Feed parsing, the database lookup and the clock are parameters.
 */
module RSSReader {
  import opened Wrappers
  import opened Seqs
  import opened Decimal
  import opened Urls
  import opened Http
  import opened Category
  import opened CrawlEntry
  import opened WebCrawler

  /** `generateGetRequest`: the four appends of its string builder. */
  function GenerateGetRequest(uri: Uri): string
  {
    var path := AsText(uri.path) + (match uri.query case Some(q) => "?" + q case None => "");
    "GET " + path + " HTTP/1.1\r\n"
    + "Host: " + AsText(uri.host) + "\r\n"
    + "User-Agent: " + UserAgent + "\r\n"
    + "Connection: close\r\n\r\n"
  }

  /** The feed reader writes byte for byte the request the fetch worker writes. */
  lemma GenerateGetRequestIsWorkerRequest(uri: Uri)
    ensures GenerateGetRequest(uri) == WorkerRequest(uri)
  {
    var target := RequestTarget(uri.path, uri.query);
    var host := AsText(uri.host);
    assert GenerateGetRequest(uri)
        == "GET " + target + " HTTP/1.1\r\n" + "Host: " + host + "\r\n" + "User-Agent: " + UserAgent + "\r\n"
           + "Connection: close\r\n\r\n";
  }

  /**
   * Read back, the bytes `writeBytes` sends are the request line, `Host`,
   * `User-Agent`, `Connection: close` and the empty line, with target and
   * host truncated to their low bytes.
   */
  lemma FeedRequestLines(uri: Uri)
    requires NoCr(WriteBytes(RequestTarget(uri.path, uri.query))) && NoCr(WriteBytes(AsText(uri.host)))
    ensures ParseLines(WriteBytes(GenerateGetRequest(uri)))
         == Some(["GET " + WriteBytes(RequestTarget(uri.path, uri.query)) + " HTTP/1.1",
                  "Host: " + WriteBytes(AsText(uri.host)), "User-Agent: " + UserAgent, "Connection: close", ""])
  {
    GenerateGetRequestIsWorkerRequest(uri);
    WorkerRequestLines(uri);
  }

  /** What `createSocket` does with a URI. */
  datatype SocketChoice =
    | Connect(port: int)  // a plain socket to port 80 or a TLS socket to port 443
    | NoSocket            // returned `null`
    | NullScheme          // `protocol.equals` on a URI with neither scheme nor port

  /**
   * `createSocket`: a socket only for `http` and `https` without an explicit
   * port, exactly where the fetch worker's port rule gives 80 or 443.
   */
  function CreateSocket(uri: Uri): (r: SocketChoice)
    ensures r == Connect(80) <==> GetPort(uri) == Port(80)
    ensures r == Connect(443) <==> GetPort(uri) == Port(443)
    ensures r == NoSocket <==> GetPort(uri) == Port(-1)
    ensures r == NullScheme <==> GetPort(uri) == NoScheme
  {
    if uri.port != NoPort then NoSocket
    else
      match uri.scheme
      case None => NullScheme
      case Some(protocol) =>
        if protocol == "http" then Connect(80)
        else if protocol == "https" then Connect(443)
        else NoSocket
  }

  /** A feed entry as the feed library yields it. */
  datatype FeedEntry = FeedEntry(link: string, categoryNames: seq<string>, description: Option<string>)

  /** An entry ready to be written: its link, round-trip time and categories. */
  datatype RssLink = RssLink(url: string, serverRT: int, categories: set<string>)

  /**
   * The reader's surroundings: the vocabulary, URI parsing, the network,
   * the elapsed time of a timed request, and the database's "already
   * crawled" test.
   */
  datatype Env = Env(
    vocab: set<string>,
    parse: Parser,
    net: Network,
    elapsed: string -> int,
    isCrawled: string -> bool)

  /** `getRTT`: the time of one full request to `url`; `None` for any exception on the way. */
  function RoundTrip(env: Env, url: string): Option<int>
  {
    match env.parse(url)
    case None => None
    case Some(uri) =>
      match CreateSocket(uri)
      case Connect(port) =>
        if env.net(uri.host, port, WriteBytes(GenerateGetRequest(uri))).Reply? then Some(env.elapsed(url)) else None
      case _ => None
  }

  /**
   * `attachCategories`: the feed's category names when it gives any,
   * otherwise the vocabulary entries found in the description (what
   * `getTags(String)` returns), then the round trip. A missing description
   * or a failed round trip throws, which drops the entry.
   */
  function AttachCategories(env: Env, entry: FeedEntry): (r: Option<RssLink>)
    ensures r.Some? <==> (entry.categoryNames != [] || entry.description.Some?) && RoundTrip(env, entry.link).Some?
    ensures r.Some? ==> r.value.url == entry.link && Some(r.value.serverRT) == RoundTrip(env, entry.link)
    ensures r.Some? && entry.categoryNames != [] ==>
              forall c :: c in r.value.categories <==> c in entry.categoryNames
    ensures r.Some? && entry.categoryNames == [] ==>
              r.value.categories == Matching(env.vocab, entry.description.value)
  {
    var cats :=
      if entry.categoryNames != [] then Some(set c | c in entry.categoryNames)
      else match entry.description
        case None => None
        case Some(d) => Some(Matching(env.vocab, d));
    match cats
    case None => None
    case Some(categories) =>
      match RoundTrip(env, entry.link)
      case None => None
      case Some(rtt) => Some(RssLink(entry.link, rtt, categories))
  }

  /**
   * `getLinksFromRSS`: in feed order, the entries not yet crawled whose
   * categories and round trip could be attached; the others are skipped
   * silently.
   */
  function GetLinksFromRss(env: Env, entries: seq<FeedEntry>): (links: seq<RssLink>)
    ensures |links| <= |entries|
  {
    if entries == [] then []
    else GetLinksFromRss(env, entries[..|entries| - 1]) + LinkOf(env, entries[|entries| - 1])
  }

  /**
   * Every link comes from an entry not yet crawled, and every such entry
   * whose categories and round trip could be attached gives its link.
   */
  lemma GetLinksFromRssSelects(env: Env, entries: seq<FeedEntry>)
    ensures forall l :: l in GetLinksFromRss(env, entries) ==> exists e :: e in entries && Yields(env, e, l)
    ensures forall e, l :: e in entries && Yields(env, e, l) ==> l in GetLinksFromRss(env, entries)
  {
    GetLinksFromRssSound(env, entries);
    GetLinksFromRssComplete(env, entries);
  }

  /** Entry `e` is not yet crawled and gives link `l`. */
  predicate Yields(env: Env, e: FeedEntry, l: RssLink)
  {
    !env.isCrawled(e.link) && AttachCategories(env, e) == Some(l)
  }

  lemma {:induction false} GetLinksFromRssSound(env: Env, entries: seq<FeedEntry>)
    ensures forall l :: l in GetLinksFromRss(env, entries) ==> exists e :: e in entries && Yields(env, e, l)
    decreases |entries|
  {
    if entries != [] {
      var init, last := entries[..|entries| - 1], entries[|entries| - 1];
      GetLinksFromRssSound(env, init);
      assert GetLinksFromRss(env, entries) == GetLinksFromRss(env, init) + LinkOf(env, last);
      forall l | l in GetLinksFromRss(env, entries)
        ensures exists e :: e in entries && Yields(env, e, l)
      {
        if l in GetLinksFromRss(env, init) {
          var e :| e in init && Yields(env, e, l);
          assert e in entries;
        } else {
          assert l in LinkOf(env, last) && Yields(env, last, l);
        }
      }
    }
  }

  lemma {:induction false} GetLinksFromRssComplete(env: Env, entries: seq<FeedEntry>)
    ensures forall e, l :: e in entries && Yields(env, e, l) ==> l in GetLinksFromRss(env, entries)
    decreases |entries|
  {
    if entries != [] {
      var init, last := entries[..|entries| - 1], entries[|entries| - 1];
      GetLinksFromRssComplete(env, init);
      assert GetLinksFromRss(env, entries) == GetLinksFromRss(env, init) + LinkOf(env, last);
      forall e, l | e in entries && Yields(env, e, l)
        ensures l in GetLinksFromRss(env, entries)
      {
        if e != last {
          assert e in init;
        } else {
          assert LinkOf(env, last) == [l];
        }
      }
    }
  }

  /** What one entry contributes: nothing when crawled or when attaching fails. */
  function LinkOf(env: Env, e: FeedEntry): seq<RssLink>
  {
    if env.isCrawled(e.link) then []
    else match AttachCategories(env, e) case Some(l) => [l] case None => []
  }

  /** Feeds are processed entry by entry: the links of a joined list are the joined links. */
  lemma {:induction false} GetLinksFromRssAppend(env: Env, a: seq<FeedEntry>, b: seq<FeedEntry>)
    ensures GetLinksFromRss(env, a + b) == GetLinksFromRss(env, a) + GetLinksFromRss(env, b)
    decreases |b|
  {
    if b == [] {
      assert a + b == a;
    } else {
      var init, last := b[..|b| - 1], b[|b| - 1];
      assert b == init + [last];
      assert a + b == (a + init) + [last];
      GetLinksFromRssSnoc(env, a + init, last);
      GetLinksFromRssSnoc(env, init, last);
      GetLinksFromRssAppend(env, a, init);
      AppendAssoc(GetLinksFromRss(env, a), GetLinksFromRss(env, init), LinkOf(env, last));
    }
  }

  /** One more entry adds its own contribution at the end. */
  lemma GetLinksFromRssSnoc(env: Env, entries: seq<FeedEntry>, e: FeedEntry)
    ensures GetLinksFromRss(env, entries + [e]) == GetLinksFromRss(env, entries) + LinkOf(env, e)
  {
    var s := entries + [e];
    assert s[..|s| - 1] == entries && s[|s| - 1] == e;
  }


  /** A feed whose every entry is already crawled yields nothing. */
  lemma {:induction false} CrawledEntriesSkipped(env: Env, entries: seq<FeedEntry>)
    requires forall e :: e in entries ==> env.isCrawled(e.link)
    ensures GetLinksFromRss(env, entries) == []
    decreases |entries|
  {
    if entries != [] {
      CrawledEntriesSkipped(env, entries[..|entries| - 1]);
    }
  }

  /** How `getRSSLinks` ends. */
  datatype FeedOutcome =
    | FeedLinks(links: seq<RssLink>)  // returned a list, empty when no socket was made
    | FeedFailed                      // a checked exception, caught by `run`, which goes on
    | ThreadDied                      // the unchecked `NullPointerException`, which ends `run`

  /**
   * `getRSSLinks`: parse the feed URL, pick the socket, send the request,
   * read the response, and let the feed library turn it into entries
   * (`None` when it throws).
   */
  function GetRssLinks(env: Env, parseFeed: string -> Option<seq<FeedEntry>>, url: string): (r: FeedOutcome)
    ensures env.parse(url).None? ==> r == FeedFailed
    ensures env.parse(url).Some? ==> (r == ThreadDied <==> GetPort(env.parse(url).value) == NoScheme)
    ensures env.parse(url).Some? && GetPort(env.parse(url).value) == Port(-1) ==> r == FeedLinks([])
    ensures env.parse(url).Some? && GetPort(env.parse(url).value) in {Port(80), Port(443)} ==>
              var uri := env.parse(url).value;
              var reply := env.net(uri.host, GetPort(uri).number, WriteBytes(WorkerRequest(uri)));
              && (reply.IoFailure? ==> r == FeedFailed)
              && (reply.Reply? && parseFeed(ResponseText(reply.lines)).None? ==> r == FeedFailed)
              && (reply.Reply? && parseFeed(ResponseText(reply.lines)).Some? ==>
                    r == FeedLinks(GetLinksFromRss(env, parseFeed(ResponseText(reply.lines)).value)))
    ensures r == FeedFailed <==>
              || env.parse(url).None?
              || (&& GetPort(env.parse(url).value) in {Port(80), Port(443)}
                  && var uri := env.parse(url).value;
                     var reply := env.net(uri.host, GetPort(uri).number, WriteBytes(WorkerRequest(uri)));
                     reply.IoFailure? || parseFeed(ResponseText(reply.lines)).None?)
  {
    match env.parse(url)
    case None => FeedFailed
    case Some(uri) =>
      match CreateSocket(uri)
      case NullScheme => ThreadDied
      case NoSocket => FeedLinks([])
      case Connect(port) =>
        GenerateGetRequestIsWorkerRequest(uri);
        match env.net(uri.host, port, WriteBytes(GenerateGetRequest(uri)))
        case IoFailure => FeedFailed
        case Reply(lines) =>
          match parseFeed(ResponseText(lines))
          case None => FeedFailed
          case Some(entries) => FeedLinks(GetLinksFromRss(env, entries))
  }

  /**
   * `DB.write`: the category set becomes an array (empty, never `null`, for
   * no categories) and the round-trip time its decimal text, which reads
   * back as the same number.
   */
  method Write(link: RssLink) returns (entry: CtfCrawlEntry)
    ensures entry.url == link.url
    ensures ParseDecimal(entry.response) == Some(link.serverRT)
    ensures entry.tags.Some? && NoDup(entry.tags.value) && |entry.tags.value| == |link.categories|
    ensures forall c :: c in entry.tags.value <==> c in link.categories
  {
    var cats := SetToSeq(link.categories);
    DecimalRoundTrip(link.serverRT);
    entry := CtfCrawlEntry(link.url, IntToDecimal(link.serverRT), Some(cats));
  }

  /**
   * `run` over the feeds in iteration order: the links of each feed are
   * written in order; a failed feed is passed over; a dying thread writes
   * nothing more. Every record written is for a link not yet crawled and
   * carries a readable time.
   */
  method Run(env: Env, parseFeed: string -> Option<seq<FeedEntry>>, feeds: seq<string>)
    returns (written: seq<CtfCrawlEntry>)
    ensures forall w :: w in written ==> !env.isCrawled(w.url) && ParseDecimal(w.response).Some?
    ensures (forall f :: f in feeds ==> GetRssLinks(env, parseFeed, f) == FeedFailed) ==> written == []
  {
    written := [];
    for i := 0 to |feeds|
      invariant forall w :: w in written ==> !env.isCrawled(w.url) && ParseDecimal(w.response).Some?
      invariant (forall f :: f in feeds ==> GetRssLinks(env, parseFeed, f) == FeedFailed) ==> written == []
    {
      match GetRssLinks(env, parseFeed, feeds[i]) {
        case ThreadDied =>
          return;
        case FeedFailed =>
        case FeedLinks(links) =>
          for k := 0 to |links|
            invariant forall w :: w in written ==> !env.isCrawled(w.url) && ParseDecimal(w.response).Some?
            invariant (forall f :: f in feeds ==> GetRssLinks(env, parseFeed, f) == FeedFailed) ==> written == []
          {
            LinkOfFeedNotCrawled(env, parseFeed, feeds[i], links[k]);
            var entry := Write(links[k]);
            written := written + [entry];
          }
      }
    }
  }

  /** A link a feed yields belongs to an entry that was not yet crawled. */
  lemma LinkOfFeedNotCrawled(env: Env, parseFeed: string -> Option<seq<FeedEntry>>, url: string, l: RssLink)
    requires GetRssLinks(env, parseFeed, url).FeedLinks?
    requires l in GetRssLinks(env, parseFeed, url).links
    ensures !env.isCrawled(l.url)
  {
    var links := GetRssLinks(env, parseFeed, url).links;
    assert links != [];
    var uri := env.parse(url).value;
    var text := ResponseText(env.net(uri.host, GetPort(uri).number, WriteBytes(WorkerRequest(uri))).lines);
    GetLinksFromRssSelects(env, parseFeed(text).value);
    var e :| e in parseFeed(text).value && Yields(env, e, l);
  }

}
