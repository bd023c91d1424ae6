/**
 * The parts of `java.net.URI` the crawler reads. Parsing itself is not
 * modelled: every operation that parses takes a `Parser`, whose `None`
 * stands for `URISyntaxException`.
 */
module Urls {
  import opened Wrappers

  /** A parsed URI; an absent component is `None`, an absent port is `NoPort`. */
  datatype Uri = Uri(
    scheme: Option<string>,
    authority: Option<string>,
    host: Option<string>,
    port: int,
    path: Option<string>,
    query: Option<string>)

  /** What `URI.getPort()` returns when the URI names no port. */
  const NoPort := -1

  type Parser = string -> Option<Uri>

  /** How a possibly-null Java string reads once concatenated: `"x" + null` is `"xnull"`. */
  function AsText(s: Option<string>): string
  {
    match s
    case Some(v) => v
    case None => "null"
  }

}
