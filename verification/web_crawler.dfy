/**
 * The fetch worker: picks the port from the URI, writes one GET request,
 * reads the response, keeps the admitted links of the page in document
 * order, tags the page, and reports back to the coordinator at most once.
 * Sockets, TLS and the clock are not modelled; the exchange with the server
 * is a `Network` parameter.
 */
module WebCrawler {
  import opened Wrappers
  import opened Seqs
  import opened Text
  import opened Urls
  import opened Html
  import opened Http
  import opened UrlFilter
  import opened Category

  /** The browser string the worker sends, written token by token. */
  const UserAgent := "Mozilla/5.0 " + "(Windows NT 6.1) " + "AppleWebKit/537.36 "
                     + "(KHTML, like Gecko) " + "Chrome/41.0.2228.0 " + "Safari/537.36"
  const FeedTypeRss := "application/rss+xml"
  /** Declared as the Atom type but holding the RSS type (see `GetFeedLink`). */
  const FeedTypeAtom := "application/rss+xml"
  const FeedTypeRss1 := "application/rdf+xml"

  /**
   * The result of `getPort`. `NoScheme` stands for the
   * `NullPointerException` thrown when a URI has neither port nor scheme.
   */
  datatype PortResult = Port(number: int) | NoScheme

  /** 80 for `http` and 443 for `https` without an explicit port; -1 otherwise. */
  function GetPort(uri: Uri): (r: PortResult)
    ensures r == Port(80) <==> uri.port == NoPort && uri.scheme == Some("http")
    ensures r == Port(443) <==> uri.port == NoPort && uri.scheme == Some("https")
    ensures r == NoScheme <==> uri.port == NoPort && uri.scheme.None?
    ensures r.Port? ==> r.number == 80 || r.number == 443 || r.number == -1
  {
    if uri.port == NoPort then
      match uri.scheme
      case None => NoScheme
      case Some(scheme) =>
        if scheme == "http" then Port(80) else if scheme == "https" then Port(443) else Port(-1)
    else Port(-1)
  }

  /** An explicit port, even the default one, and an upper-case scheme are both unsupported. */
  lemma ExplicitPortOrUpperSchemeUnsupported(uri: Uri)
    requires uri.port != NoPort || uri.scheme == Some("HTTP") || uri.scheme == Some("HTTPS")
    ensures GetPort(uri) == Port(-1)
  {
  }

  /** The request text a worker builds for `uri`: path, optional query, host and the user agent. */
  function WorkerRequest(uri: Uri): string
  {
    GetRequest(RequestTarget(uri.path, uri.query), AsText(uri.host), Some(UserAgent))
  }

  /**
   * The User-Agent value fits on one header line and is plain ASCII, so
   * `writeBytes` sends it unchanged.
   */
  lemma UserAgentHasNoCr()
    ensures NoCr(UserAgent)
    ensures WriteBytes(UserAgent) == UserAgent
  {
    PrintableWordsPlain("(KHTML, like Gecko) ", "Chrome/41.0.2228.0 ", "Safari/537.36");
    UserAgentHeadPlain();
    var head := "Mozilla/5.0 " + "(Windows NT 6.1) " + "AppleWebKit/537.36 ";
    PlainAppend(head, "(KHTML, like Gecko) ");
    PlainAppend(head + "(KHTML, like Gecko) ", "Chrome/41.0.2228.0 ");
    PlainAppend(head + "(KHTML, like Gecko) " + "Chrome/41.0.2228.0 ", "Safari/537.36");
  }

  lemma UserAgentHeadPlain()
    ensures Plain("Mozilla/5.0 " + "(Windows NT 6.1) " + "AppleWebKit/537.36 ")
  {
    PrintableWordsPlain("Mozilla/5.0 ", "(Windows NT 6.1) ", "AppleWebKit/537.36 ");
    PlainAppend("Mozilla/5.0 ", "(Windows NT 6.1) ");
    PlainAppend("Mozilla/5.0 " + "(Windows NT 6.1) ", "AppleWebKit/537.36 ");
  }

  /** Three printable ASCII words are each plain. */
  lemma PrintableWordsPlain(a: string, b: string, c: string)
    requires forall i :: 0 <= i < |a| ==> ' ' <= a[i] <= '~'
    requires forall i :: 0 <= i < |b| ==> ' ' <= b[i] <= '~'
    requires forall i :: 0 <= i < |c| ==> ' ' <= c[i] <= '~'
    ensures Plain(a) && Plain(b) && Plain(c)
  {
    PrintableIsPlain(a);
    PrintableIsPlain(b);
    PrintableIsPlain(c);
  }

  /**
   * Read back, the bytes the worker sends are the five request lines, the
   * User-Agent third, with target and host as `writeBytes` truncates them;
   * that holds whenever the truncation leaves no CR in either.
   */
  lemma WorkerRequestLines(uri: Uri)
    requires NoCr(WriteBytes(RequestTarget(uri.path, uri.query))) && NoCr(WriteBytes(AsText(uri.host)))
    ensures ParseLines(WriteBytes(WorkerRequest(uri)))
         == Some(["GET " + WriteBytes(RequestTarget(uri.path, uri.query)) + " HTTP/1.1",
                  "Host: " + WriteBytes(AsText(uri.host)), "User-Agent: " + UserAgent, "Connection: close", ""])
  {
    var target := RequestTarget(uri.path, uri.query);
    var host := AsText(uri.host);
    UserAgentHasNoCr();
    WirePlainAgentLines(target, host, UserAgent);
  }

  /**
   * The link a page's anchor stands for: Jsoup's absolute form, or, when that
   * is empty, the page's scheme, `://`, its authority and the raw href with
   * no separator added.
   */
  function VerifyAbsLink(page: Uri, link: Element): (r: string)
    ensures link.absHref != "" ==> r == link.absHref
    ensures link.absHref == "" && page.scheme.Some? && page.authority.Some? ==>
              r == page.scheme.value + "://" + page.authority.value + Attr(link, "href")
    ensures link.absHref == "" && page.authority.None? ==>
              r == AsText(page.scheme) + "://null" + Attr(link, "href")
    ensures link.absHref == "" && page.scheme.None? ==>
              r == "null://" + AsText(page.authority) + Attr(link, "href")
  {
    if link.absHref == "" then
      AsText(page.scheme) + "://" + AsText(page.authority) + Attr(link, "href")
    else link.absHref
  }

  /** Only the page's scheme and authority matter; its path and query never do. */
  lemma VerifyAbsLinkIgnoresPath(page: Uri, other: Uri, link: Element)
    requires other.scheme == page.scheme && other.authority == page.authority
    ensures VerifyAbsLink(other, link) == VerifyAbsLink(page, link)
  {
  }

  /** A root-relative href resolves against the page's scheme and authority. */
  lemma RootRelativeHrefResolves()
    ensures VerifyAbsLink(
      Uri(Some("https"), Some("good.org"), Some("good.org"), NoPort, Some("/a/b"), None),
      Element("a", map["href" := "/c"], "", "", "p")) == "https://good.org/c"
  {
  }

  /** A path-relative href is glued to the authority, losing the page's directory. */
  lemma PathRelativeHrefLosesDirectory()
    ensures VerifyAbsLink(
      Uri(Some("https"), Some("good.org"), Some("good.org"), NoPort, Some("/a/b"), None),
      Element("a", map["href" := "c"], "", "", "p")) == "https://good.orgc"
  {
  }

  /** The resolved links of every `a[href]` element, in document order. */
  function Candidates(page: Uri, anchors: seq<Element>): (links: seq<string>)
    ensures |links| == |anchors|
    ensures forall i :: 0 <= i < |anchors| ==> links[i] == VerifyAbsLink(page, anchors[i])
  {
    if anchors == [] then []
    else Candidates(page, anchors[..|anchors| - 1]) + [VerifyAbsLink(page, anchors[|anchors| - 1])]
  }

  /** The links the filter lets through, in order. */
  function Admit(parse: Parser, whitelist: set<string>, candidates: seq<string>): (links: seq<string>)
    ensures |links| <= |candidates|
  {
    if candidates == [] then []
    else
      var last := candidates[|candidates| - 1];
      Admit(parse, whitelist, candidates[..|candidates| - 1]) + (if ShouldFilterOff(parse, whitelist, last) then [] else [last])
  }

  /** Every admitted link passes the filter, and each passing link is kept as often as it occurs. */
  lemma {:induction false} AdmitCounts(parse: Parser, whitelist: set<string>, candidates: seq<string>)
    ensures forall l :: l in Admit(parse, whitelist, candidates) ==> !ShouldFilterOff(parse, whitelist, l)
    ensures forall l :: multiset(Admit(parse, whitelist, candidates))[l]
                     == (if ShouldFilterOff(parse, whitelist, l) then 0 else multiset(candidates)[l])
    decreases |candidates|
  {
    if candidates != [] {
      var init, last := candidates[..|candidates| - 1], candidates[|candidates| - 1];
      assert candidates == init + [last];
      AdmitCounts(parse, whitelist, init);
    }
  }

  /** Filtering keeps the relative order: admitting a concatenation concatenates. */
  lemma {:induction false} AdmitAppend(parse: Parser, whitelist: set<string>, a: seq<string>, b: seq<string>)
    ensures Admit(parse, whitelist, a + b) == Admit(parse, whitelist, a) + Admit(parse, whitelist, b)
    decreases |b|
  {
    if b != [] {
      var init, last := b[..|b| - 1], b[|b| - 1];
      assert (a + b)[..|a + b| - 1] == a + init;
      assert (a + b)[|a + b| - 1] == last;
      AdmitAppend(parse, whitelist, a, init);
      AppendAssoc(Admit(parse, whitelist, a), Admit(parse, whitelist, init),
                  if ShouldFilterOff(parse, whitelist, last) then [] else [last]);
    } else {
      assert a + b == a;
    }
  }

  /** `getLinksFromHTML`: the admitted links of the page, in document order, duplicates kept. */
  function GetLinksFromHtml(parse: Parser, whitelist: set<string>, page: Uri, doc: Document): (links: seq<string>)
    ensures forall l :: l in links ==> !ShouldFilterOff(parse, whitelist, l)
    ensures forall l :: multiset(links)[l]
                     == (if ShouldFilterOff(parse, whitelist, l) then 0 else multiset(Candidates(page, Links(doc)))[l])
  {
    AdmitCounts(parse, whitelist, Candidates(page, Links(doc)));
    Admit(parse, whitelist, Candidates(page, Links(doc)))
  }

  /** The element carries the attribute `type` with the given value. */
  predicate HasType(e: Element, mime: string)
  {
    "type" in e.attrs && e.attrs["type"] == mime
  }

  /** The first element of the document whose `type` is `mime`. */
  function FirstOfType(doc: Document, mime: string): (r: Option<nat>)
    ensures r.None? <==> forall e :: e in doc ==> !HasType(e, mime)
    ensures r.Some? ==> r.value < |doc| && HasType(doc[r.value], mime)
    ensures r.Some? ==> forall i :: 0 <= i < r.value ==> !HasType(doc[i], mime)
  {
    if doc == [] then None
    else if HasType(doc[0], mime) then Some(0)
    else
      match FirstOfType(doc[1..], mime)
      case None => None
      case Some(i) => Some(i + 1)
  }

  /** `mimes[j]` is the first type, in the given order, that occurs in `doc`. */
  predicate FirstTypePresent(doc: Document, mimes: seq<string>, j: int)
  {
    && 0 <= j < |mimes|
    && FeedHref(doc, mimes[j]).Some?
    && forall k :: 0 <= k < j ==> FeedHref(doc, mimes[k]).None?
  }

  /** The href of the first element of the first type, in the given order, that occurs at all. */
  function FirstFeedLink(doc: Document, mimes: seq<string>): (r: Option<string>)
    ensures |mimes| > 0 && FeedHref(doc, mimes[0]).Some? ==> r == FeedHref(doc, mimes[0])
  {
    if mimes == [] then None
    else if FeedHref(doc, mimes[0]).Some? then FeedHref(doc, mimes[0])
    else FirstFeedLink(doc, mimes[1..])
  }

  /**
   * Nothing is found exactly when no element has any of the types, and what
   * is found is the href of some element typed with one of them.
   */
  lemma {:induction false} FirstFeedLinkCases(doc: Document, mimes: seq<string>)
    ensures FirstFeedLink(doc, mimes).None? <==> forall m, e :: m in mimes && e in doc ==> !HasType(e, m)
    ensures FirstFeedLink(doc, mimes).Some? ==> exists m :: m in mimes && FeedHref(doc, m) == FirstFeedLink(doc, mimes)
    decreases |mimes|
  {
    if mimes != [] {
      FirstFeedLinkCases(doc, mimes[1..]);
      assert forall m :: m in mimes <==> m == mimes[0] || m in mimes[1..];
    }
  }

  /** The result is the href of the first type, in the given order, that occurs at all. */
  lemma {:induction false} FirstFeedLinkPriority(doc: Document, mimes: seq<string>, j: int)
    requires FirstTypePresent(doc, mimes, j)
    ensures FirstFeedLink(doc, mimes) == FeedHref(doc, mimes[j])
    decreases |mimes|
  {
    if j > 0 {
      FirstTypePresentInTail(doc, mimes, j);
      FirstFeedLinkPriority(doc, mimes[1..], j - 1);
      FirstFeedLinkSkipsAbsent(doc, mimes);
    }
  }

  lemma FirstTypePresentInTail(doc: Document, mimes: seq<string>, j: int)
    requires FirstTypePresent(doc, mimes, j) && j > 0
    ensures FirstTypePresent(doc, mimes[1..], j - 1)
    ensures mimes[1..][j - 1] == mimes[j]
    ensures FeedHref(doc, mimes[0]).None?
  {
    var rest := mimes[1..];
    forall k | 0 <= k < j - 1
      ensures FeedHref(doc, rest[k]).None?
    {
      assert rest[k] == mimes[k + 1];
    }
  }

  lemma FirstFeedLinkSkipsAbsent(doc: Document, mimes: seq<string>)
    requires mimes != [] && FeedHref(doc, mimes[0]).None?
    ensures FirstFeedLink(doc, mimes) == FirstFeedLink(doc, mimes[1..])
  {
  }

  /** The href of the first element typed `mime`, if there is one. */
  function FeedHref(doc: Document, mime: string): Option<string>
  {
    match FirstOfType(doc, mime)
    case Some(i) => Some(Attr(doc[i], "href"))
    case None => None
  }

  /** `getRssLink` as written: the Atom slot repeats the RSS type. */
  function GetRssLink(doc: Document): Option<string>
  {
    FirstFeedLink(doc, [FeedTypeRss, FeedTypeAtom, FeedTypeRss1])
  }

  /**
   * As written only two types are ever searched: the result is that of the
   * RSS type, else that of the RDF type, and nothing when neither occurs.
   */
  lemma GetRssLinkSearchesTwoTypes(doc: Document)
    ensures GetRssLink(doc) == FirstFeedLink(doc, [FeedTypeRss, FeedTypeRss1])
    ensures GetRssLink(doc).None? <==> forall e :: e in doc ==> !HasType(e, FeedTypeRss) && !HasType(e, FeedTypeRss1)
  {
    var written := [FeedTypeRss, FeedTypeAtom, FeedTypeRss1];
    FirstFeedLinkCases(doc, written);
    assert written[1..] == [FeedTypeRss, FeedTypeRss1];
    assert forall m :: m in written <==> m == FeedTypeRss || m == FeedTypeRss1;
  }

  /** As written, a page announcing only an Atom feed yields no feed link. */
  lemma AtomFeedMissed()
    ensures GetRssLink([Element("link", map["type" := "application/atom+xml", "href" := "/atom.xml"], "", "", "head")]) == None
  {
    var e := Element("link", map["type" := "application/atom+xml", "href" := "/atom.xml"], "", "", "head");
    assert !HasType(e, FeedTypeRss) && !HasType(e, FeedTypeRss1);
    GetRssLinkSearchesTwoTypes([e]);
  }

  /** The Atom feed MIME type. */
  const AtomMimeType := "application/atom+xml"

  /** `getRssLink` with the Atom slot holding the Atom type. */
  function GetFeedLink(doc: Document): Option<string>
  {
    FirstFeedLink(doc, [FeedTypeRss, AtomMimeType, FeedTypeRss1])
  }

  /**
   * With the Atom type in place a feed link is found exactly when some
   * element announces an RSS, Atom or RDF feed, and an RSS feed wins.
   */
  lemma GetFeedLinkFindsEveryFeedType(doc: Document)
    ensures GetFeedLink(doc).None? <==>
      forall e :: e in doc ==> !HasType(e, FeedTypeRss) && !HasType(e, AtomMimeType) && !HasType(e, FeedTypeRss1)
    ensures FeedHref(doc, FeedTypeRss).Some? ==> GetFeedLink(doc) == FeedHref(doc, FeedTypeRss)
  {
    var mimes := [FeedTypeRss, AtomMimeType, FeedTypeRss1];
    FirstFeedLinkCases(doc, mimes);
    assert forall m :: m in mimes <==> m == FeedTypeRss || m == AtomMimeType || m == FeedTypeRss1;
  }

  /** The page from the counterexample above does yield its Atom feed. */
  lemma AtomFeedFound()
    ensures GetFeedLink([Element("link", map["type" := "application/atom+xml", "href" := "/atom.xml"], "", "", "head")]) == Some("/atom.xml")
  {
    var e := Element("link", map["type" := "application/atom+xml", "href" := "/atom.xml"], "", "", "head");
    assert !HasType(e, FeedTypeRss) && HasType(e, AtomMimeType);
  }

  /** The server's reply: the lines `readLine` yields, or an I/O failure anywhere in the exchange. */
  datatype NetReply = Reply(lines: seq<string>) | IoFailure

  /** One exchange: host (possibly null), port and the bytes sent, to the reply. */
  type Network = (Option<string>, int, string) -> NetReply

  /** How `crawl` ends. */
  datatype CrawlOutcome =
    | Unsupported                                             // returned null: port not 80/443
    | Fetched(links: seq<string>, tags: Option<seq<string>>)  // returned the links
    | Failed                                                  // a checked I/O exception escaped
    | Crashed                                                 // an unchecked exception escaped

  /** `crawl`: connect, send, receive, extract links and tags. */
  method Crawl(parse: Parser, whitelist: set<string>, vocab: set<string>, uri: Uri,
               net: Network, parseHtml: string -> Document)
    returns (outcome: CrawlOutcome)
    ensures outcome == Crashed <==> GetPort(uri) == NoScheme
    ensures outcome == Unsupported <==> GetPort(uri).Port? && GetPort(uri).number == -1
    ensures outcome == Failed
        <==> (GetPort(uri) in {Port(80), Port(443)} && net(uri.host, GetPort(uri).number, WriteBytes(WorkerRequest(uri))).IoFailure?)
    ensures outcome.Fetched? ==> forall l :: l in outcome.links ==> !ShouldFilterOff(parse, whitelist, l)
    ensures outcome.Fetched? ==> outcome.links == GetLinksFromHtml(parse, whitelist, uri,
      parseHtml(ResponseText(net(uri.host, GetPort(uri).number, WriteBytes(WorkerRequest(uri))).lines)))
    ensures outcome.Fetched? ==>
      var doc := parseHtml(ResponseText(net(uri.host, GetPort(uri).number, WriteBytes(WorkerRequest(uri))).lines));
      && (outcome.tags.None? <==> forall t :: t in TextsOf(doc, HeadingTags) ==> Matching(vocab, t) == {})
      && (outcome.tags.Some? ==> NoDup(outcome.tags.value))
      && (outcome.tags.Some? ==> forall c :: c in outcome.tags.value <==>
            c in vocab && exists t :: t in TextsOf(doc, HeadingTags) && Contains(ToLower(t), c))
  {
    var port := GetPort(uri);
    if port == NoScheme {
      return Crashed;
    }
    if port.number != 80 && port.number != 443 {
      return Unsupported;
    }
    match net(uri.host, port.number, WriteBytes(WorkerRequest(uri))) {
      case IoFailure =>
        outcome := Failed;
      case Reply(lines) =>
        var doc := parseHtml(ResponseText(lines));
        var links := GetLinksFromHtml(parse, whitelist, uri, doc);
        var tags := GetTagsOfDocument(vocab, doc);
        outcome := Fetched(links, tags);
    }
  }

  /** One call of the coordinator's `addCrawledUrls`. */
  datatype Report = Report(url: string, serverRT: int, links: Option<seq<string>>, tags: Option<seq<string>>)

  /**
   * The calls `run` makes: one failure report for a checked exception, one
   * success report when links came back, and none at all when the port was
   * unsupported or an unchecked exception ended the worker.
   */
  function Reports(url: string, serverRT: int, outcome: CrawlOutcome): (reports: seq<Report>)
    ensures |reports| <= 1
    ensures outcome.Failed? <==> reports == [Report(url, -1, None, None)]
    ensures outcome.Fetched? <==> |reports| == 1 && reports[0].links.Some?
    ensures outcome.Fetched? ==> reports[0] == Report(url, serverRT, Some(outcome.links), outcome.tags)
    ensures outcome.Unsupported? || outcome.Crashed? <==> reports == []
    ensures forall r :: r in reports ==> r.url == url
  {
    match outcome
    case Failed => [Report(url, -1, None, None)]
    case Fetched(links, tags) => [Report(url, serverRT, Some(links), tags)]
    case Unsupported => []
    case Crashed => []
  }

}
