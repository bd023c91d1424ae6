/**
 * The URL admission filter: decides whether a discovered absolute link is
 * kept off the frontier. A link passes only when it parses, its host is in
 * the whitelist, no generic keyword occurs in it, and, for three known
 * sites, no keyword of that site's own list occurs in it.
 */
module UrlFilter {
  import opened Wrappers
  import opened Text
  import opened Urls

  const GenericKeywords: seq<string> :=
    ["google", "facebook", "twitter", "png", "jpg", "exe", "pdf", "#",
     "wolframalpha", "wikipedia", "wiki", "github", "wordpress",
     "contact", "faq", "about", "login", "sourceforge", "media"]
  const CtftimeKeywords: seq<string> :=
    ["/ctf/", "stats", "dating", "team", "event", "task", "calendar", "user"]
  const NandynarwhalsKeywords: seq<string> := ["scripting-for-ctfs", "comment"]
  const RootKeywords: seq<string> := ["about-us"]

  /** Some keyword of the list occurs in the link (case-sensitive substring match). */
  function IsInFilterKeywords(link: string, keywords: seq<string>): (r: bool)
    ensures r <==> exists k :: k in keywords && Contains(link, k)
  {
    if keywords == [] then false
    else Contains(link, keywords[0]) || IsInFilterKeywords(link, keywords[1..])
  }

  /** The whitelist built from the list file's lines: each line, and the line behind `www.`. */
  function WhiteListDomains(lines: seq<string>): (domains: set<string>)
    ensures forall d :: d in domains <==> d in lines || exists l :: l in lines && d == "www." + l
  {
    if lines == [] then {}
    else
      var line := lines[|lines| - 1];
      WhiteListDomains(lines[..|lines| - 1]) + {line, "www." + line}
  }

  /** True when the link must not enter the frontier. */
  function ShouldFilterOff(parse: Parser, whitelist: set<string>, link: string): bool
  {
    match parse(link)
    case None => true
    case Some(uri) =>
      match uri.host
      case None => true
      case Some(host) =>
        if host == "" then true
        else if host !in whitelist then true
        else if IsInFilterKeywords(link, GenericKeywords) then true
        else if EqualsIgnoreCase(host, "ctftime.org") then IsInFilterKeywords(link, CtftimeKeywords)
        else if EqualsIgnoreCase(host, "nandynarwhals.org") then IsInFilterKeywords(link, NandynarwhalsKeywords)
        else if EqualsIgnoreCase(host, "0x90r00t.com") then IsInFilterKeywords(link, RootKeywords)
        else false
  }

  /** No keyword of the list occurs in the link. */
  predicate FreeOf(link: string, keywords: seq<string>)
  {
    forall k :: k in keywords ==> !Contains(link, k)
  }

  /**
   * Admission stated declaratively: the link parses to a URI whose host is
   * non-empty and whitelisted, the link is free of every generic keyword, and
   * the list of each special site whose name the host matches (ignoring case)
   * is avoided too.
   */
  predicate Admitted(parse: Parser, whitelist: set<string>, link: string)
  {
    && parse(link).Some?
    && parse(link).value.host.Some?
    && var host := parse(link).value.host.value;
    && host != ""
    && host in whitelist
    && FreeOf(link, GenericKeywords)
    && (EqualsIgnoreCase(host, "ctftime.org") ==> FreeOf(link, CtftimeKeywords))
    && (EqualsIgnoreCase(host, "nandynarwhals.org") ==> FreeOf(link, NandynarwhalsKeywords))
    && (EqualsIgnoreCase(host, "0x90r00t.com") ==> FreeOf(link, RootKeywords))
  }

  lemma SpecialHostsDiffer(host: string)
    ensures !(EqualsIgnoreCase(host, "ctftime.org") && EqualsIgnoreCase(host, "nandynarwhals.org"))
    ensures !(EqualsIgnoreCase(host, "ctftime.org") && EqualsIgnoreCase(host, "0x90r00t.com"))
    ensures !(EqualsIgnoreCase(host, "nandynarwhals.org") && EqualsIgnoreCase(host, "0x90r00t.com"))
  {
    assert ToLower("ctftime.org")[0] == 'c';
    assert ToLower("0x90r00t.com")[0] == '0';
  }

  /** The filter keeps a link exactly when it is admitted. */
  lemma ShouldFilterOffIsAdmission(parse: Parser, whitelist: set<string>, link: string)
    ensures !ShouldFilterOff(parse, whitelist, link) <==> Admitted(parse, whitelist, link)
  {
    if parse(link).Some? && parse(link).value.host.Some? {
      SpecialHostsDiffer(parse(link).value.host.value);
    }
  }

  /** A link that does not parse is always kept off. */
  lemma UnparsableFilteredOff(parse: Parser, whitelist: set<string>, link: string)
    requires parse(link).None?
    ensures ShouldFilterOff(parse, whitelist, link)
  {
  }

  /** A link without a host, or with an empty one, is always kept off. */
  lemma HostlessFilteredOff(parse: Parser, whitelist: set<string>, link: string)
    requires parse(link).Some?
    requires parse(link).value.host.None? || parse(link).value.host == Some("")
    ensures ShouldFilterOff(parse, whitelist, link)
  {
  }

  /** A host outside the whitelist (compared exactly, case included) is kept off. */
  lemma UnlistedHostFilteredOff(parse: Parser, whitelist: set<string>, link: string)
    requires parse(link).Some? && parse(link).value.host.Some?
    requires parse(link).value.host.value !in whitelist
    ensures ShouldFilterOff(parse, whitelist, link)
  {
  }

  /** A link holding any generic keyword is kept off, whatever its host. */
  lemma GenericKeywordFilteredOff(parse: Parser, whitelist: set<string>, link: string, keyword: string)
    requires keyword in GenericKeywords
    requires Contains(link, keyword)
    ensures ShouldFilterOff(parse, whitelist, link)
  {
  }

  /** `#` is a generic keyword, so every link carrying a fragment marker is kept off. */
  lemma FragmentFilteredOff(parse: Parser, whitelist: set<string>, link: string)
    requires '#' in link
    ensures ShouldFilterOff(parse, whitelist, link)
  {
    ContainsChar(link, '#');
    assert GenericKeywords[7] == "#";
    GenericKeywordFilteredOff(parse, whitelist, link, "#");
  }

  /**
   * A whitelisted host that is none of the three special sites is admitted
   * as soon as the link holds no generic keyword.
   */
  lemma OrdinaryHostAdmitted(parse: Parser, whitelist: set<string>, link: string)
    requires parse(link).Some? && parse(link).value.host.Some?
    requires var host := parse(link).value.host.value;
      && host != "" && host in whitelist
      && !EqualsIgnoreCase(host, "ctftime.org")
      && !EqualsIgnoreCase(host, "nandynarwhals.org")
      && !EqualsIgnoreCase(host, "0x90r00t.com")
    requires FreeOf(link, GenericKeywords)
    ensures !ShouldFilterOff(parse, whitelist, link)
  {
  }

  /**
   * A `www.` host never matches a special site's name, so only the generic
   * list applies to it: it is kept exactly when it is whitelisted and free of
   * generic keywords.
   */
  lemma WwwHostSkipsSiteList(parse: Parser, whitelist: set<string>, link: string, site: string)
    requires site in {"ctftime.org", "nandynarwhals.org", "0x90r00t.com"}
    requires parse(link).Some? && parse(link).value.host == Some("www." + site)
    ensures !ShouldFilterOff(parse, whitelist, link)
        <==> "www." + site in whitelist && FreeOf(link, GenericKeywords)
  {
    var host := "www." + site;
    assert !EqualsIgnoreCase(host, "ctftime.org") by {
      assert |ToLower(host)| != |ToLower("ctftime.org")|;
    }
    assert !EqualsIgnoreCase(host, "nandynarwhals.org") by {
      assert |ToLower(host)| != |ToLower("nandynarwhals.org")|;
    }
    assert !EqualsIgnoreCase(host, "0x90r00t.com") by {
      assert |ToLower(host)| != |ToLower("0x90r00t.com")|;
    }
  }

  /**
   * For the 0x90r00t.com site its own list adds nothing: `about-us` already
   * holds the generic keyword `about`, so surviving the generic check admits
   * the link.
   */
  lemma RootSiteListSubsumed(parse: Parser, whitelist: set<string>, link: string)
    requires parse(link).Some? && parse(link).value.host.Some?
    requires var host := parse(link).value.host.value;
      host != "" && host in whitelist && EqualsIgnoreCase(host, "0x90r00t.com")
    requires FreeOf(link, GenericKeywords)
    ensures !ShouldFilterOff(parse, whitelist, link)
  {
    var host := parse(link).value.host.value;
    SpecialHostsDiffer(host);
    assert GenericKeywords[15] == "about";
    if Contains(link, "about-us") {
      ContainsPrefix(link, "about-us", "about");
    }
    assert FreeOf(link, RootKeywords);
  }

  /** With no whitelist file every link is kept off. */
  lemma EmptyWhiteListFiltersAll(parse: Parser, link: string)
    ensures ShouldFilterOff(parse, WhiteListDomains([]), link)
  {
  }

}
