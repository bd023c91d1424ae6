# A Dafny model of the CTF writeup crawler

This project models the core of a bounded-concurrency web crawler for CTF
writeup sites. The crawler is written in Java. The model covers:

- the URL admission filter (`UrlFilter`);
- the keyword categoriser (`Category`);
- the immutable crawl record (`CtfCrawlEntry`);
- the pure parts of the fetch worker (`WebCrawler`): default-port choice,
  the hand-written HTTP/1.1 GET request, response reading, link resolution
  and filtering, feed-type lookup, and how often a worker reports back;
- the crawl coordinator (`ParallelCrawlerHandler`) as a state machine.
  Its state is the pending list, the visited set, the accepted-report count
  and the workers in flight. Its steps are seeding and merging, one
  iteration of the dispatch loop with compaction, a worker finishing with
  its report, and the exhaustion test;
- the whitelist and category updater (`Updater`);
- the feed reader (`RSSReader`).

Each Java source file has one module with the same name. `CtfCrawlEntry`
becomes the module `CrawlEntry`. Shared modules:

- `Wrappers`: `Option`, the stand-in for Java's `null`.
- `Seqs`: no-duplicates, concatenation, and `HashSet.toArray` in an
  unspecified order.
- `Text`: substring search, ASCII lower-casing, `equalsIgnoreCase`.
- `Decimal`: `Long.toString` and `Integer.parseInt`.
- `Urls`: an abstract `java.net.URI`. String concatenation with `null`
  gives the text `null`.
- `Html`: a Jsoup document as a sequence of elements.
- `Http`: CRLF framing, the GET request, the low-byte truncation that
  `DataOutputStream.writeBytes` applies to every UTF-16 code unit (a char
  above U+FFFF is a surrogate pair, so two units), and the text made of
  `readLine` results.

Things the code gets from libraries or the operating system become
parameters:

- URI parsing is a function `string -> Option<Uri>`.
- HTML parsing is a function `string -> Document`.
- Feed parsing is a function `string -> Option<seq<FeedEntry>>`.
- The network is a function from host, port and the bytes `writeBytes`
  puts on the wire (the low byte of each UTF-16 code unit) to the lines
  read back, or an I/O failure.
- The feed reader's clock and its database lookup are functions too.

Thread interleavings are any sequence of coordinator steps, each step
taken atomically (see "## Left out" for the unlocked dispatch loop). The pool's
approximate active count is the exact set of workers in flight. The
database is an append-only log of records (`sink`), and every dispatched
URL is logged too (`dispatched`), so that the guarantees can be stated
over them.

Behaviour of the code that the model keeps, some of it easy to miss:

- A failed fetch still reports `(url, -1, null, null)`, and the coordinator
  counts it against the page budget like a successful one.
- Compaction happens only when more than 500 URLs are pending.
- `getTags(Document)` returns `null`, not an empty result, when no tag
  matches.
- A URI with neither scheme nor port makes the port lookup throw a
  `NullPointerException`. The worker then ends without any report.
- The category scan compares the label text with `/` by reference, so a
  `/` label is collected. `Updater.ObtainCategories` and `Updater.Crawl`
  follow that; `Updater.LabelsOfIntended` is the selection that skips it.
- `writeBytes` keeps only the low byte of each UTF-16 code unit. A char
  above U+FFFF is two units, a surrogate pair, and sends two bytes. A path
  or host with a unit whose low byte is CR or LF changes the framing of
  the request.

The coordinator's step relation `Next` allows `DispatchNext` even when
`ContinueCrawl` is false, and it uses the corrected `DispatchStep`. It is
therefore a sound over-approximation of the dispatch loop, taken one
atomic step at a time: what it preserves holds on every run of the loop
that does not fail and in which no report is merged while an iteration
is under way.

## Model

| member | source | states |
|---|---|---|
| UrlFilter.IsInFilterKeywords | src/UrlFilter.java:86-92 | true exactly when some keyword of the list occurs in the link, case-sensitively |
| UrlFilter.WhiteListDomains | src/UrlFilter.java:105-119 | a domain is whitelisted exactly when it is a line of the file or `www.` followed by a line |
| UrlFilter.ShouldFilterOffIsAdmission | src/UrlFilter.java:52-78 | a link is kept exactly when it parses, has a non-empty whitelisted host, has no generic keyword, and, for the three special hosts (compared ignoring case), has none of that host's keywords |
| UrlFilter.SpecialHostsDiffer | src/UrlFilter.java:63-68 | no host equals two of the special domains ignoring case, so at most one per-domain list applies |
| UrlFilter.UnparsableFilteredOff | src/UrlFilter.java:75-77 | a link that does not parse is filtered off |
| UrlFilter.HostlessFilteredOff | src/UrlFilter.java:56-74 | a link with a null or empty host is filtered off |
| UrlFilter.UnlistedHostFilteredOff | src/UrlFilter.java:57-59 | a host outside the whitelist is filtered off; membership is exact |
| UrlFilter.GenericKeywordFilteredOff | src/UrlFilter.java:60-62 | a link containing any generic keyword is filtered off, whatever its host |
| UrlFilter.FragmentFilteredOff | src/UrlFilter.java:19-21 | because `#` is a generic keyword, every link with a `#` is filtered off |
| UrlFilter.OrdinaryHostAdmitted | src/UrlFilter.java:69-70 | a whitelisted host that is not special, in a link free of generic keywords, is admitted |
| UrlFilter.WwwHostSkipsSiteList | src/UrlFilter.java:63-71 | a `www.`-prefixed special host passes on whitelist and generic keywords alone; its per-domain list is never consulted |
| UrlFilter.RootSiteListSubsumed | src/UrlFilter.java:67-68 | for `0x90r00t.com`, passing the generic check implies admission, since `about` covers `about-us` |
| UrlFilter.EmptyWhiteListFiltersAll | src/UrlFilter.java:106-118 | with no whitelist file every link is filtered off |
| Category.Vocabulary | src/Category.java:114-127 | the vocabulary holds exactly the file's lines, verbatim |
| Category.GetTags | src/Category.java:65-75 | the result is a subset of the vocabulary, and an entry is in it exactly when the lower-cased text contains it |
| Category.UpperEntryNeverTagged | src/Category.java:67-71 | an entry with an upper-case letter is never in the result |
| Category.EmptyEntryAlwaysTagged | src/Category.java:68-71 | an empty entry tags every text |
| Category.LoweringTwiceHarmless | src/Category.java:54-67 | lowering the text before the call as well does not change the tags |
| Category.TagUnionMembership | src/Category.java:52-56 | a tag is in the document's union exactly when it is a vocabulary entry contained in some selected text, lower-cased |
| Category.TagUnionEmpty | src/Category.java:57-58 | the union is empty exactly when each selected text has no tag |
| Category.TagsOfTexts | src/Category.java:53-56 | the loop over the selected elements collects exactly the union of their tag sets |
| Category.ToTagArray | src/Category.java:57-61 | `null` exactly for the empty set; otherwise an array with every tag exactly once |
| Category.GetTagsOfDocument | src/Category.java:48-63 | `null` exactly when no title or h1-h3 text holds an entry; otherwise each matching entry exactly once |
| Category.GetTagsFromCtfTimes | src/Category.java:82-101 | the same rule over the h2 and span texts, with the same `null` |
| Category.CryptoWriteupExample | src/Category.java:65-75 | over `{crypto, forensic}` the text `Crypto Writeup` is tagged `{crypto}` |
| CrawlEntry.GettersReturnConstructorArguments | src/CtfCrawlEntry.java:7-23 | each getter returns exactly the constructor's argument, a `null` tag array included |
| CrawlEntry.GettersDetermineEntry | src/CtfCrawlEntry.java:3-11 | records that agree on every getter are equal: the record holds nothing else |
| Decimal.DecimalRoundTrip | src/ParallelCrawlerHandler.java:163 | the response time's decimal text reads back as the same number |
| Decimal.DecimalInjective | src/RSSReader.java:55 | distinct times are stored as distinct texts |
| Html.TextsOf | src/Category.java:52-54 | the selected texts come from elements with one of the selected tags, every such element gives its text, and there are no more texts than elements |
| Html.TextsOfAppend | src/Category.java:52-54 | the selection is a filter in document order: the texts of a concatenation are the texts of the first part followed by those of the second |
| Html.TextsOfSingle | src/Category.java:52-54 | a single element gives its text exactly when its tag is selected, so each selected element contributes exactly once |
| Html.Links | src/WebCrawler.java:195 | the `a[href]` selection holds exactly the anchors of the document that carry an href, no more of them than elements |
| Html.LinksAppend | src/WebCrawler.java:195 | the selection keeps document order: the links of a concatenation are the links of the first part followed by those of the second |
| Html.LinksSingle | src/WebCrawler.java:195 | a single element is selected exactly when it is an `a[href]`, so each match appears exactly once |
| Http.GetRequest | src/WebCrawler.java:112-128 | read back as CRLF lines, the request text is the request line, Host, the optional User-Agent, `Connection: close` and the empty line; it ends in CRLF CRLF |
| Http.CodeUnitsDecode | src/WebCrawler.java:120-123 | a char is one UTF-16 code unit up to U+FFFF and otherwise a high and a low surrogate that decode back to it |
| Http.AsciiUnchanged | src/WebCrawler.java:120-123 | `writeBytes` sends ASCII text unchanged |
| Http.WriteBytesAppend | src/WebCrawler.java:120-123 | the bytes of a concatenation are the bytes of its parts, in order |
| Http.WriteBytesTerminated | src/WebCrawler.java:120-123 | truncating CRLF-framed lines to low bytes frames the truncated lines |
| Http.RequestLinesOnWire | src/WebCrawler.java:120-123 | the fixed words of the request are ASCII: truncation touches only target, host and agent |
| Http.WireRequest | src/WebCrawler.java:120-123 | the bytes `writeBytes` sends for a request are the request built from the truncated target, host and agent |
| Http.WireRequestLines | src/Updater.java:93-95 | when truncation to the low bytes of the UTF-16 code units leaves no CR in target, host or agent, the bytes sent read back as the request lines of the truncated parts |
| Http.WideCharBreaksFraming | src/WebCrawler.java:120 | the path `/` followed by U+010D has no CR, yet its truncation has one, and the bytes sent no longer read back as lines |
| Http.SurrogateOnWire | src/WebCrawler.java:120 | U+13400 is the surrogate pair D80D DC00, so the path `/` U+13400 goes out as `/`, CR, NUL |
| Http.SurrogateBreaksFraming | src/WebCrawler.java:120 | the path `/` followed by U+13400 has no CR, yet its high surrogate's low byte is one, and the bytes sent no longer read back as lines |
| Http.ParseTerminated | src/WebCrawler.java:120-123 | lines without a carriage return, each written with CRLF, read back as the same lines |
| Http.TerminatedOfParse | src/WebCrawler.java:120-123 | text that reads back as lines is exactly those lines written with CRLF |
| Http.RequestTargetSplits | src/WebCrawler.java:94-96 | the target is the path, then `?` and the query only when there is one; splitting at the first `?` gives them back |
| Http.RequestLinesWithoutAgent | src/Updater.java:93-95 | without a User-Agent the request lines are the same, minus the third line |
| Http.ResponseIsConcat | src/WebCrawler.java:133-155 | a non-empty response is all its lines joined with the terminators dropped |
| Http.EmptyResponseReadsNull | src/WebCrawler.java:143 | an empty stream gives the text `null`, the same as a one-line body `null` |
| WebCrawler.GetPort | src/WebCrawler.java:162-172 | 80 exactly for scheme `http` with no port, 443 exactly for `https` with no port, a crash for no scheme and no port, -1 otherwise |
| WebCrawler.ExplicitPortOrUpperSchemeUnsupported | src/WebCrawler.java:164-171 | an explicit port, even 80 or 443, and an upper-case scheme both give -1 |
| WebCrawler.UserAgentHasNoCr | src/WebCrawler.java:41 | the User-Agent value fits on one header line and `writeBytes` sends it unchanged |
| WebCrawler.WorkerRequestLines | src/WebCrawler.java:120-123 | the bytes the worker sends read back as exactly its five lines, in order, with target and host truncated to the low bytes of their UTF-16 code units, whenever that truncation leaves no CR |
| WebCrawler.VerifyAbsLink | src/WebCrawler.java:174-183 | a non-empty `abs:href` is returned unchanged; an empty one gives scheme, `://`, authority and the raw href, with the text `null` for a missing scheme and for a missing authority |
| WebCrawler.VerifyAbsLinkIgnoresPath | src/WebCrawler.java:179 | the page's path and query never affect the resolved link |
| WebCrawler.RootRelativeHrefResolves | src/WebCrawler.java:174-183 | an empty `abs:href` with a root-relative href resolves against scheme and authority |
| WebCrawler.PathRelativeHrefLosesDirectory | src/WebCrawler.java:178-180 | a path-relative href is glued to the authority with no separator |
| WebCrawler.Candidates | src/WebCrawler.java:195-197 | one resolved link per anchor, in document order |
| WebCrawler.AdmitCounts | src/WebCrawler.java:196-202 | every kept link passes the filter, and each passing link is kept exactly as often as it occurs |
| WebCrawler.AdmitAppend | src/WebCrawler.java:196-202 | filtering keeps document order: filtering a concatenation concatenates the results |
| WebCrawler.GetLinksFromHtml | src/WebCrawler.java:190-205 | the page's links are its admitted anchors, duplicates kept |
| WebCrawler.FirstOfType | src/WebCrawler.java:223-225 | finds the first element with the given `type`, or none when no element has it |
| WebCrawler.FirstFeedLink | src/WebCrawler.java:215-220 | when the first type occurs, its first element's href is the result |
| WebCrawler.FirstFeedLinkCases | src/WebCrawler.java:215-228 | none exactly when no element has any of the types; otherwise the href of an element typed with one of them |
| WebCrawler.FirstFeedLinkPriority | src/WebCrawler.java:215-228 | the result is the href of the first type, in the given order, that occurs at all |
| WebCrawler.GetRssLinkSearchesTwoTypes | src/WebCrawler.java:207-229 | as written only the RSS and RDF types are searched; no feed link exactly when neither type occurs |
| WebCrawler.AtomFeedMissed | src/WebCrawler.java:43 | a page announcing only an Atom feed gives no link as written |
| WebCrawler.GetFeedLinkFindsEveryFeedType | src/WebCrawler.java:217-228 | with the Atom type in place a link is found exactly when an RSS, Atom or RDF feed is announced, and RSS wins |
| WebCrawler.AtomFeedFound | src/WebCrawler.java:217-220 | the corrected lookup finds that page's Atom feed |
| WebCrawler.Crawl | src/WebCrawler.java:79-104 | crash exactly without scheme and port; `null` exactly for an unsupported port; failure exactly when the exchange of the truncated request fails; otherwise the page's admitted links, and tags that are `null` exactly when no title or h1-h3 text holds an entry and otherwise each matching entry exactly once |
| WebCrawler.Reports | src/WebCrawler.java:258-284 | at most one report: `(url, -1, null, null)` exactly on failure, the links and tags on success, none for an unsupported port or a crash |
| ParallelCrawlerHandler.UnvisitedCounts | src/ParallelCrawlerHandler.java:203-207 | each unvisited URL is kept as often as it occurs, and no visited URL is kept |
| ParallelCrawlerHandler.UnvisitedAppend | src/ParallelCrawlerHandler.java:203-207 | dropping visited URLs keeps the order of the rest |
| ParallelCrawlerHandler.UnvisitedIdempotent | src/ParallelCrawlerHandler.java:88-90 | compacting twice drops nothing more |
| ParallelCrawlerHandler.UnvisitedOfVisited | src/ParallelCrawlerHandler.java:88-90 | a list of visited URLs compacts to nothing |
| ParallelCrawlerHandler.AddToCrawlingUrls | src/ParallelCrawlerHandler.java:199-208 | `null` changes nothing; otherwise only the pending list changes, and the old list stays its prefix |
| ParallelCrawlerHandler.AddToCrawlingUrlsCounts | src/ParallelCrawlerHandler.java:203-207 | what is appended holds each unvisited URL exactly as often as the input does, and no visited URL |
| ParallelCrawlerHandler.MergeInOrder | src/ParallelCrawlerHandler.java:199-208 | merging two lists in turn is merging their concatenation |
| ParallelCrawlerHandler.Init | src/ParallelCrawlerHandler.java:47-55 | the seeded frontier holds the seeds in order, nothing visited, count zero, no workers, and satisfies the invariant |
| ParallelCrawlerHandler.UnvisitedOfNothing | src/ParallelCrawlerHandler.java:54 | with nothing visited every seed is kept |
| ParallelCrawlerHandler.Compact | src/ParallelCrawlerHandler.java:88-90 | only the pending list changes, and not at all at 500 pending URLs or fewer |
| ParallelCrawlerHandler.CompactCounts | src/ParallelCrawlerHandler.java:88-90 | above 500 pending URLs every visited one is removed and every other one kept as often as before |
| ParallelCrawlerHandler.PopHead | src/ParallelCrawlerHandler.java:92-97 | the head is removed; it is submitted only when not visited, after being marked visited |
| ParallelCrawlerHandler.CompactionEmptiesThenIndexFails | src/ParallelCrawlerHandler.java:88-93 | as written, 501 visited copies of one URL make the loop body index an empty list |
| ParallelCrawlerHandler.ReachableIndexOutOfBounds | src/ParallelCrawlerHandler.java:76-98 | from one seed with two workers, a page with 502 links to one new URL leads, in three steps, to a running loop whose next iteration fails that way |
| ParallelCrawlerHandler.DispatchStep | src/ParallelCrawlerHandler.java:76-98 | one iteration never fails; it is idle and changes nothing when nothing is pending or all workers are busy; a submitted URL was unvisited and is now visited, in flight and logged once |
| ParallelCrawlerHandler.DispatchStepRefinesWritten | src/ParallelCrawlerHandler.java:78-97 | the corrected iteration agrees with the written one whenever the latter does not fail |
| ParallelCrawlerHandler.IdleIterationChangesNothing | src/ParallelCrawlerHandler.java:78-80 | with nothing pending or every worker busy the state is unchanged |
| ParallelCrawlerHandler.DispatchPreservesValid | src/ParallelCrawlerHandler.java:92-97 | dispatch keeps the invariant: no URL dispatched twice, every dispatched URL visited |
| ParallelCrawlerHandler.AddCrawledUrls | src/ParallelCrawlerHandler.java:152-168 | a no-op once the budget is used; otherwise the count grows by one, the URL is visited, the pending list and sink only grow at the end, and one record is logged exactly when tags came back |
| ParallelCrawlerHandler.AddCrawledUrlsMerges | src/ParallelCrawlerHandler.java:157-167 | the merged links are those neither visited nor the reported URL, each as often as the report holds it |
| ParallelCrawlerHandler.AddCrawledUrlsPreservesValid | src/ParallelCrawlerHandler.java:152-158 | accepting a report keeps the count within the budget and the records within the count |
| ParallelCrawlerHandler.Complete | src/ParallelCrawlerHandler.java:152-168 | a finishing worker leaves the pool and adds at most one to the count and at most one record |
| ParallelCrawlerHandler.LateCompletionDropped | src/ParallelCrawlerHandler.java:152-155 | once the budget is used, a finishing worker changes nothing else |
| ParallelCrawlerHandler.FailureConsumesBudget | src/ParallelCrawlerHandler.java:156-160 | a failed fetch uses a budget slot and marks the URL visited, merging nothing and logging no record |
| ParallelCrawlerHandler.CompletePreservesValid | src/ParallelCrawlerHandler.java:152-168 | a finishing worker keeps the invariant |
| ParallelCrawlerHandler.ExhaustedIsStable | src/ParallelCrawlerHandler.java:215-217 | an exhausted frontier ends the loop, and a dispatch attempt leaves it as it is |
| ParallelCrawlerHandler.RunPreservesValid | src/ParallelCrawlerHandler.java:76-98 | every interleaving of dispatches and completions keeps the invariant |
| ParallelCrawlerHandler.NoDuplicateDispatch | src/ParallelCrawlerHandler.java:92-97 | from the seeded frontier, under any interleaving, no URL is dispatched twice, the count stays within the budget, and there are no more records than counted reports |
| ParallelCrawlerHandler.AddDomainsAndCategories | src/ParallelCrawlerHandler.java:183-193 | the call count grows by one, and each set that is not `null` is merged in |
| Updater.UpdaterRequestLines | src/Updater.java:88-96 | the bytes the updater sends read back as the request line, Host, `Connection: close` and the empty line, with no User-Agent and with target and host truncated to the low bytes of their UTF-16 code units, whenever that truncation leaves no CR |
| Updater.ObtainDomains | src/Updater.java:144-150 | without an unparsable link, exactly the hosts of the `div > a[href]` links; the first unparsable one fails the scan and keeps the hosts seen before it |
| Updater.SlashLabelCollectedAsWritten | src/Updater.java:153 | as written the label `/` passes the test; as intended it does not |
| Updater.ObtainCategories | src/Updater.java:151-160 | exactly the lower-cased texts of the label spans that pass the test as written, none with an upper-case letter |
| Updater.SlashLabelCollected | src/Updater.java:153-157 | as written, a label span reading `/` puts the category `/` in the result; the intended selection never holds it |
| Updater.NumericLabelSkippedAsWritten | src/Updater.java:154-157 | even as written, no text `Integer.parseInt` accepts is ever collected |
| Updater.NumericLabelNeverCollected | src/Updater.java:151-160 | with the intended test, no text `Integer.parseInt` accepts, and not `/`, is ever collected |
| Updater.LowersToSlash | src/Updater.java:157 | only the text `/` lower-cases to `/` |
| Updater.IntendedDropsOnlySlash | src/Updater.java:153 | the intended selection is the written one minus the category `/` |
| Updater.Crawl | src/Updater.java:56-80 | crash exactly without scheme and port; empty sets for an unsupported port or a failed exchange; a failure exactly when some link does not parse; otherwise all hosts and labels of the page |
| Updater.Callbacks | src/Updater.java:168-189 | no call after a crash, one call normally, two after a checked exception; only the last call carries the sets, any earlier one is `(null, null)` |
| Updater.UpdaterTally | src/Updater.java:173-187 | the coordinator's call count grows by 0, 1 or 2, and the sets are merged in unless the thread crashed |
| RSSReader.GenerateGetRequestIsWorkerRequest | src/RSSReader.java:133-154 | the feed reader writes byte for byte the fetch worker's request |
| RSSReader.FeedRequestLines | src/RSSReader.java:145-153 | the bytes `writeBytes` sends read back as the request line, Host, User-Agent, `Connection: close` and the empty line, with target and host truncated to the low bytes of their UTF-16 code units, whenever that truncation leaves no CR |
| RSSReader.CreateSocket | src/RSSReader.java:93-114 | a socket to 80 or 443 exactly where the worker's port rule gives it; `null` for any other port; a crash without scheme and port |
| RSSReader.AttachCategories | src/RSSReader.java:189-204 | an entry survives exactly when it has category names or a description and its round trip succeeds; feed names are used when present, else the vocabulary matched in the description |
| RSSReader.GetLinksFromRss | src/RSSReader.java:156-187 | at most one link per feed entry |
| RSSReader.GetLinksFromRssSelects | src/RSSReader.java:174-184 | every link belongs to an entry not yet crawled, and every such entry whose categories and round trip could be attached gives its link |
| RSSReader.GetLinksFromRssAppend | src/RSSReader.java:174-184 | entries are processed in feed order: the results of a concatenation concatenate |
| RSSReader.CrawledEntriesSkipped | src/RSSReader.java:176 | a feed whose entries are all crawled gives nothing |
| RSSReader.GetRssLinks | src/RSSReader.java:72-91 | an unparsable URL fails; no scheme and no port kills the thread; an unsupported port gives an empty list; on port 80 or 443 a failed exchange or an unparsable feed fails, and otherwise the result is the links of the parsed feed's entries; it fails in exactly those cases |
| RSSReader.Write | src/RSSReader.java:52-57 | the record keeps the URL, holds a time that reads back as the same number, and holds every category exactly once, never `null` |
| RSSReader.Run | src/RSSReader.java:224-259 | every record written is for a link not yet crawled and holds a readable time; feeds that all fail give no record |
| RSSReader.LinkOfFeedNotCrawled | src/RSSReader.java:174-179 | a link a feed yields is one the database did not yet hold |

## Left out

- Sockets, TLS and timeouts: the network is a parameter. The feed reader's
  connection failure makes `createSocket` return `null`. A read failure
  throws instead. Both count as a failed exchange, and both have the same
  effect: nothing is written for that feed or entry.
- `System.currentTimeMillis`: the server response time is a parameter, and
  the feed reader's timed request gives an elapsed time through a function.
- Jsoup, ROME and `java.net.URI` parsing are parameters. Jsoup attribute
  selectors (`[class=label label-info]`, `getElementsByAttributeValue`)
  compare case-insensitively after trimming. The model compares exactly.
- `toLowerCase` is modelled as ASCII lower-casing, not locale-sensitive
  Unicode lower-casing. `Integer.parseInt` is modelled on ASCII digits only.
- Thread scheduling: a worker's report and its exit from the pool are one
  step. The busy-wait loops, `Thread.sleep`, `shutdownNow` and the final
  wait for termination are not modelled. Nor is the interruption check in
  the feed reader's `run`.
- A malformed URL at dispatch makes `new WebCrawler(...)` throw
  `URISyntaxException`, which ends `beginCrawl`. In the model that
  iteration is a `Malformed` step; the end of the loop is not modelled.
- The dispatch loop in `beginCrawl` reads and changes the pending list and
  the count without the lock that the synchronized `addCrawledUrls` holds
  while it appends to the same `ArrayList`. The model takes each dispatch
  iteration and each accepted report as one atomic step. Its step-level
  guarantees assume that atomicity and say nothing about a report merged
  in the middle of an iteration.
- Termination of the crawl loop is not proved; the model proves only what
  each step preserves.
- `beginUpdateWhiteListAndCategories` and the file writes: loops over fixed
  URLs and I/O.
- `WebCrawler.getLinksFromRSS` and `addRssUrl`: the worker never calls them
  on the crawl path.
- The feed entries' category names are modelled as strings, never `null`.
- `DB.isCrawled` calls `DatabaseHandler.isInserted`, which
  src/DatabaseHandler.java does not define. It is modelled as an arbitrary
  predicate.
- src/DatabaseHandler.java (JDBC storage), src/DatabaseFrontend.java
  (console), src/RssReader.java (a second feed client whose type lookup
  repeats the worker's) and src/WebCrawlerDriver.java (constants and
  seeds) are not part of this model. Neither are the stale top-level
  copies of the coordinator, worker and driver.
- RSSReader.Run: states two facts: every record is for an uncrawled link
  with a readable time, and all-failing feeds write nothing. It does not
  state the exact sequence of records.
- RSSReader.GetRssLinks: does not say which checked exception a failure
  stands for.
- Updater.Crawl: states the partial domains of a failed scan only through
  `Updater.ObtainDomains`.

## Findings

| source | as written | input that shows it | evidently intended | confidence | as-written member | corrected member |
|---|---|---|---|---|---|---|
| src/ParallelCrawlerHandler.java:88-93 | after compaction removes visited URLs, `crawlingUrls.get(0)` runs without checking the list again | seed `https://a.test/`, two workers; its page links 502 times to `https://a.test/y`; after the second dispatch 501 visited copies remain, compaction empties the list, and `get(0)` throws `IndexOutOfBoundsException` | an empty list after compaction ends the iteration like an empty list before it | not executed | ParallelCrawlerHandler.ReachableIndexOutOfBounds | ParallelCrawlerHandler.DispatchStep |
| src/Updater.java:153 | `category.text() != "/"` compares references, and Jsoup builds a new string for every text | a `span class="label label-info"` whose text is `/` | the label `/` is skipped | not executed | Updater.SlashLabelCollected | Updater.NumericLabelNeverCollected |
| src/WebCrawler.java:43 | `FEED_TYPE_ATOM` holds `application/rss+xml`, so the Atom slot searches the RSS type again | a page whose only feed link has type `application/atom+xml` | the Atom slot searches `application/atom+xml` | not executed | WebCrawler.AtomFeedMissed | WebCrawler.GetFeedLinkFindsEveryFeedType |
