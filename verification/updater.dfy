/**
 * The whitelist and category updater: fetches one ctftime.org writeup page,
 * collects the hosts of the links directly inside a `div` and the texts of
 * the `label label-info` spans, and hands both sets to the coordinator.
 * It shares the fetch worker's port rule and response reading; its request
 * carries no User-Agent line.
 */
module Updater {
  import opened Wrappers
  import opened Urls
  import opened Text
  import opened Decimal
  import opened Html
  import opened Http
  import opened WebCrawler
  import opened ParallelCrawlerHandler

  /** The request text the updater builds: request line, `Host`, `Connection: close`, empty line. */
  function UpdaterRequest(uri: Uri): string
  {
    GetRequest(RequestTarget(uri.path, uri.query), AsText(uri.host), None)
  }

  /**
   * Read back, the bytes `writeBytes` sends are four lines with no
   * User-Agent, with target and host truncated to their low bytes.
   */
  lemma UpdaterRequestLines(uri: Uri)
    requires NoCr(WriteBytes(RequestTarget(uri.path, uri.query))) && NoCr(WriteBytes(AsText(uri.host)))
    ensures ParseLines(WriteBytes(UpdaterRequest(uri)))
         == Some(["GET " + WriteBytes(RequestTarget(uri.path, uri.query)) + " HTTP/1.1",
                  "Host: " + WriteBytes(AsText(uri.host)), "Connection: close", ""])
  {
    WireNoAgentLines(RequestTarget(uri.path, uri.query), AsText(uri.host));
  }

  /** The selector `div > a[href]`. */
  predicate IsDomainLink(e: Element)
  {
    IsLink(e) && e.parentTag == "div"
  }

  /** The selector `span[class=label label-info]`. */
  predicate IsLabel(e: Element)
  {
    e.tag == "span" && Attr(e, "class") == "label label-info"
  }

  /** The host of a link's absolute form, when it parses and has one. */
  function LinkHost(parse: Parser, e: Element): Option<string>
  {
    match parse(e.absHref)
    case None => None
    case Some(u) => u.host
  }

  /** Every host of a `div > a[href]` link among `elements`. */
  function HostsOf(parse: Parser, elements: seq<Element>): set<string>
  {
    set e | e in elements && IsDomainLink(e) && LinkHost(parse, e).Some? :: LinkHost(parse, e).value
  }

  lemma HostsOfSnoc(parse: Parser, elements: seq<Element>, e: Element)
    ensures HostsOf(parse, elements + [e])
         == HostsOf(parse, elements) + (if IsDomainLink(e) && LinkHost(parse, e).Some? then {LinkHost(parse, e).value} else {})
  {
    var both := elements + [e];
    forall x | x in both
      ensures x in elements || x == e
    {
    }
  }

  lemma HostsOfPrefix(parse: Parser, doc: Document, i: nat)
    requires i < |doc|
    ensures HostsOf(parse, doc[..i + 1])
         == HostsOf(parse, doc[..i]) + (if IsDomainLink(doc[i]) && LinkHost(parse, doc[i]).Some? then {LinkHost(parse, doc[i]).value} else {})
  {
    assert doc[..i + 1] == doc[..i] + [doc[i]];
    HostsOfSnoc(parse, doc[..i], doc[i]);
  }

  /** The `i`th element is a `div > a[href]` link whose absolute form does not parse. */
  predicate Unparsable(parse: Parser, doc: Document, i: int)
  {
    0 <= i < |doc| && IsDomainLink(doc[i]) && parse(doc[i].absHref).None?
  }

  /** No link before position `i` is unparsable. */
  predicate ParsesBefore(parse: Parser, doc: Document, i: int)
  {
    forall j :: 0 <= j < i ==> !Unparsable(parse, doc, j)
  }

  /**
   * The domain half of `obtainDomainsAndCategoriesFromHTML`: the links are
   * visited in document order and their hosts collected; the first link
   * whose absolute form does not parse ends the scan with a failure, keeping
   * the hosts gathered before it.
   */
  method ObtainDomains(parse: Parser, doc: Document) returns (domains: set<string>, failed: bool)
    ensures failed <==> exists i :: Unparsable(parse, doc, i)
    ensures !failed ==> domains == HostsOf(parse, doc)
    ensures failed ==> exists i :: Unparsable(parse, doc, i) && ParsesBefore(parse, doc, i)
                                   && domains == HostsOf(parse, doc[..i])
  {
    domains := {};
    for i := 0 to |doc|
      invariant domains == HostsOf(parse, doc[..i])
      invariant ParsesBefore(parse, doc, i)
    {
      if Unparsable(parse, doc, i) {
        failed := true;
        return;
      }
      var e := doc[i];
      HostsOfPrefix(parse, doc, i);
      if IsDomainLink(e) && LinkHost(parse, e).Some? {
        domains := domains + {LinkHost(parse, e).value};
      }
    }
    assert doc[..|doc|] == doc;
    failed := false;
  }

  /**
   * The label test as written: the text is never `null`, the comparison
   * with `"/"` compares references and so never rejects a text Jsoup has
   * just built, and a label `Integer.parseInt` accepts is skipped.
   */
  predicate LabelAcceptedAsWritten(text: string)
  {
    !ParsesAsInt(text)
  }

  /** The label test as intended: neither the separator `/` nor a number. */
  predicate LabelAccepted(text: string)
  {
    text != "/" && !ParsesAsInt(text)
  }

  /** The label `/` passes the test as written, not the one intended. */
  lemma SlashLabelCollectedAsWritten()
    ensures LabelAcceptedAsWritten("/")
    ensures !LabelAccepted("/")
  {
  }

  /** The lower-cased texts of the labels among `elements` that pass the test as written. */
  function LabelsOf(elements: seq<Element>): set<string>
  {
    set e | e in elements && IsLabel(e) && LabelAcceptedAsWritten(e.text) :: ToLower(e.text)
  }

  /** The lower-cased texts of the labels among `elements` that pass the intended test. */
  function LabelsOfIntended(elements: seq<Element>): set<string>
  {
    set e | e in elements && IsLabel(e) && LabelAccepted(e.text) :: ToLower(e.text)
  }

  lemma LabelsOfSnoc(elements: seq<Element>, e: Element)
    ensures LabelsOf(elements + [e])
         == LabelsOf(elements) + (if IsLabel(e) && LabelAcceptedAsWritten(e.text) then {ToLower(e.text)} else {})
  {
    var both := elements + [e];
    forall x | x in both
      ensures x in elements || x == e
    {
    }
  }

  /**
   * The category half: each label's text that passes the test as written,
   * lower-cased. Nothing collected has an upper-case letter.
   */
  method ObtainCategories(doc: Document) returns (categories: set<string>)
    ensures categories == LabelsOf(doc)
    ensures forall c :: c in categories ==> !HasUpper(c)
  {
    categories := {};
    for i := 0 to |doc|
      invariant categories == LabelsOf(doc[..i])
    {
      var e := doc[i];
      LabelsOfSnoc(doc[..i], e);
      assert doc[..i + 1] == doc[..i] + [e];
      if IsLabel(e) && LabelAcceptedAsWritten(e.text) {
        categories := categories + {ToLower(e.text)};
      }
    }
    assert doc[..|doc|] == doc;
    forall c | c in categories
      ensures !HasUpper(c)
    {
      var e :| e in doc && IsLabel(e) && LabelAcceptedAsWritten(e.text) && c == ToLower(e.text);
      ToLowerHasNoUpper(e.text);
    }
  }

  /** Lower-casing leaves a text alone when the result holds no lower-case letter. */
  lemma {:induction false} LowerIdentityOutsideLetters(text: string)
    requires forall i :: 0 <= i < |text| ==> !('a' <= ToLower(text)[i] <= 'z')
    ensures ToLower(text) == text
  {
    forall i | 0 <= i < |text|
      ensures ToLower(text)[i] == text[i]
    {
      assert ToLower(text)[i] == LowerChar(text[i]);
      assert !('a' <= LowerChar(text[i]) <= 'z');
    }
  }

  /** Only the text `/` lower-cases to `/`. */
  lemma LowersToSlash(text: string)
    ensures ToLower(text) == "/" <==> text == "/"
  {
    if ToLower(text) == "/" {
      LowerIdentityOutsideLetters(text);
    }
    if text == "/" {
      assert ToLower(text)[0] == LowerChar('/');
    }
  }

  /** As written, a label `/` on the page is collected as the category `/`. */
  lemma SlashLabelCollected(doc: Document, e: Element)
    requires e in doc && IsLabel(e) && e.text == "/"
    ensures "/" in LabelsOf(doc)
    ensures "/" !in LabelsOfIntended(doc)
  {
    LowersToSlash(e.text);
    NumericLabelNeverCollected(doc, "/");
  }

  /** Even as written, no numeric text is ever collected as a category. */
  lemma NumericLabelSkippedAsWritten(doc: Document, c: string)
    requires ParsesAsInt(c)
    ensures c !in LabelsOf(doc)
  {
    if c in LabelsOf(doc) {
      var e :| e in doc && IsLabel(e) && LabelAcceptedAsWritten(e.text) && c == ToLower(e.text);
      NoLetterInNumber(c);
      LowerIdentityOutsideLetters(e.text);
    }
  }

  /** As intended, no numeric text and not `/` is ever collected as a category. */
  lemma NumericLabelNeverCollected(doc: Document, c: string)
    requires ParsesAsInt(c) || c == "/"
    ensures c !in LabelsOfIntended(doc)
  {
    if c in LabelsOfIntended(doc) {
      var e :| e in doc && IsLabel(e) && LabelAccepted(e.text) && c == ToLower(e.text);
      if c == "/" {
        LowersToSlash(e.text);
      } else {
        NoLetterInNumber(c);
        LowerIdentityOutsideLetters(e.text);
      }
    }
  }

  /** The two selections differ in exactly the category `/`. */
  lemma IntendedDropsOnlySlash(doc: Document)
    ensures LabelsOfIntended(doc) == LabelsOf(doc) - {"/"}
  {
    forall c | c in LabelsOfIntended(doc)
      ensures c in LabelsOf(doc) - {"/"}
    {
      NumericLabelNeverCollected(doc, "/");
    }
    forall c | c in LabelsOf(doc) - {"/"}
      ensures c in LabelsOfIntended(doc)
    {
      var e :| e in doc && IsLabel(e) && LabelAcceptedAsWritten(e.text) && c == ToLower(e.text);
      LowersToSlash(e.text);
      assert LabelAccepted(e.text);
    }
  }

  /** A text `Integer.parseInt` accepts holds only a sign and digits. */
  lemma NoLetterInNumber(s: string)
    requires ParsesAsInt(s)
    ensures forall i :: 0 <= i < |s| ==> !('a' <= s[i] <= 'z')
  {
    if s[0] == '-' || s[0] == '+' {
      forall i | 1 <= i < |s|
        ensures IsDigit(s[i])
      {
        assert s[1..][i - 1] == s[i];
      }
    }
  }

  /** How `crawl` ends. */
  datatype UpdaterEnd =
    | Returned  // normally, including the unsupported-port early return
    | Threw     // a checked exception: I/O or an unparsable link
    | Aborted   // the `NullPointerException` of a URI with neither scheme nor port

  /**
   * `crawl`: sockets only for the default ports of `http` and `https`, an
   * early return for any other port, then the request, the response and
   * the extraction. On a failure the sets keep whatever was collected.
   */
  method Crawl(parse: Parser, uri: Uri, net: Network, parseHtml: string -> Document)
    returns (domains: set<string>, categories: set<string>, end: UpdaterEnd)
    ensures end == Aborted <==> GetPort(uri) == NoScheme
    ensures GetPort(uri) == Port(-1) ==> end == Returned && domains == {} && categories == {}
    ensures GetPort(uri) in {Port(80), Port(443)} && net(uri.host, GetPort(uri).number, WriteBytes(UpdaterRequest(uri))).IoFailure? ==>
              end == Threw && domains == {} && categories == {}
    ensures GetPort(uri) in {Port(80), Port(443)} && net(uri.host, GetPort(uri).number, WriteBytes(UpdaterRequest(uri))).Reply? ==>
              var doc := parseHtml(ResponseText(net(uri.host, GetPort(uri).number, WriteBytes(UpdaterRequest(uri))).lines));
              && (end == Threw <==> exists i :: Unparsable(parse, doc, i))
              && (end == Threw ==> categories == {})
              && (end == Returned ==> domains == HostsOf(parse, doc) && categories == LabelsOf(doc))
  {
    domains, categories := {}, {};
    var port := GetPort(uri);
    if port == NoScheme {
      return domains, categories, Aborted;
    }
    if port.number != 80 && port.number != 443 {
      return domains, categories, Returned;
    }
    match net(uri.host, port.number, WriteBytes(UpdaterRequest(uri))) {
      case IoFailure =>
        end := Threw;
      case Reply(lines) =>
        var doc := parseHtml(ResponseText(lines));
        var failed;
        domains, failed := ObtainDomains(parse, doc);
        if failed {
          return domains, categories, Threw;
        }
        categories := ObtainCategories(doc);
        end := Returned;
    }
  }

  /** One call of `addDomainsAndCategories`; `None` stands for `null`. */
  datatype Callback = Callback(domains: Option<set<string>>, categories: Option<set<string>>)

  /**
   * The calls `run` makes: after a checked exception one with both sets
   * `null` and then one with the sets as they stand; otherwise only the
   * latter; none when an unchecked exception ends the thread.
   */
  function Callbacks(domains: set<string>, categories: set<string>, end: UpdaterEnd): (calls: seq<Callback>)
    ensures end.Aborted? <==> calls == []
    ensures end.Returned? <==> |calls| == 1
    ensures end.Threw? <==> |calls| == 2
    ensures forall k :: 0 <= k < |calls| - 1 ==> calls[k] == Callback(None, None)
    ensures calls != [] ==> calls[|calls| - 1] == Callback(Some(domains), Some(categories))
  {
    match end
    case Aborted => []
    case Returned => [Callback(Some(domains), Some(categories))]
    case Threw => [Callback(None, None), Callback(Some(domains), Some(categories))]
  }

  /** The coordinator's tally after the given calls, in order. */
  function ApplyCallbacks(t: UpdateTally, calls: seq<Callback>): UpdateTally
    decreases |calls|
  {
    if calls == [] then t
    else ApplyCallbacks(AddDomainsAndCategories(t, calls[0].domains, calls[0].categories), calls[1..])
  }

  /**
   * What one updater does to the coordinator's tally: the call count grows
   * by two after a failure and by one otherwise, and the collected sets are
   * merged in, unless the thread crashed, in which case nothing changes.
   */
  lemma UpdaterTally(t: UpdateTally, domains: set<string>, categories: set<string>, end: UpdaterEnd)
    ensures var r := ApplyCallbacks(t, Callbacks(domains, categories, end));
      && r.updateCounts == t.updateCounts + (match end case Aborted => 0 case Returned => 1 case Threw => 2)
      && (end.Aborted? ==> r == t)
      && (!end.Aborted? ==> r.domains == t.domains + domains && r.categories == t.categories + categories)
  {
    var calls := Callbacks(domains, categories, end);
    match end {
      case Aborted =>
      case Returned =>
        assert calls[1..] == [];
      case Threw =>
        var mid := AddDomainsAndCategories(t, None, None);
        assert mid.domains == t.domains && mid.categories == t.categories;
        var last := AddDomainsAndCategories(mid, Some(domains), Some(categories));
        assert calls[1..] == [Callback(Some(domains), Some(categories))];
        assert calls[1..][1..] == [];
        assert ApplyCallbacks(mid, calls[1..]) == ApplyCallbacks(last, []) == last;
        assert ApplyCallbacks(t, calls) == ApplyCallbacks(mid, calls[1..]);
    }
  }

}
