/**
 * The immutable record produced for a crawled page: its URL, the response
 * time as text, and its tags (`None` for Java's `null` array). As a datatype
 * value it has no setters: nothing can change a field after construction.
 */
module CrawlEntry {
  import opened Wrappers

  datatype CtfCrawlEntry = CtfCrawlEntry(url: string, response: string, tags: Option<seq<string>>)
  {
    function GetUrl(): string { url }
    function GetResponse(): string { response }
    function GetTags(): Option<seq<string>> { tags }
  }

  /** Each getter returns exactly what the constructor was given, `null` tags included. */
  lemma GettersReturnConstructorArguments(url: string, response: string, tags: Option<seq<string>>)
    ensures CtfCrawlEntry(url, response, tags).GetUrl() == url
    ensures CtfCrawlEntry(url, response, tags).GetResponse() == response
    ensures CtfCrawlEntry(url, response, tags).GetTags() == tags
  {
  }

  /** Two records agree on every getter only when they are the same record. */
  lemma GettersDetermineEntry(a: CtfCrawlEntry, b: CtfCrawlEntry)
    requires a.GetUrl() == b.GetUrl() && a.GetResponse() == b.GetResponse() && a.GetTags() == b.GetTags()
    ensures a == b
  {
  }

}
