/**
 * A parsed HTML page, as the crawler sees it through Jsoup: the elements in
 * document order, each with its tag name, attributes, text, and the
 * `abs:href` value Jsoup computes for it. Parsing itself is not modelled.
 */
module Html {

  /**
   * `absHref` is Jsoup's resolved `attr("abs:href")`, empty when Jsoup cannot
   * resolve the href (the page is parsed without a base URI, though a
   * `<base href>` element in the page can still supply one).
   * `parentTag` is the tag of the enclosing element.
   */
  datatype Element = Element(
    tag: string,
    attrs: map<string, string>,
    text: string,
    absHref: string,
    parentTag: string)

  type Document = seq<Element>

  /** Jsoup's `attr(key)`: the value, or the empty string when absent. */
  function Attr(e: Element, key: string): string
  {
    if key in e.attrs then e.attrs[key] else ""
  }

  /** The selector `a[href]`. */
  predicate IsLink(e: Element)
  {
    e.tag == "a" && "href" in e.attrs
  }

  /** The texts of the elements whose tag is one of `tags`, in document order. */
  function TextsOf(doc: Document, tags: set<string>): (texts: seq<string>)
    ensures |texts| <= |doc|
    ensures forall t :: t in texts ==> exists e :: e in doc && e.tag in tags && e.text == t
    ensures forall i :: 0 <= i < |doc| && doc[i].tag in tags ==> doc[i].text in texts
  {
    if doc == [] then []
    else
      var last := doc[|doc| - 1];
      var init := doc[..|doc| - 1];
      assert forall i :: 0 <= i < |doc| - 1 ==> init[i] == doc[i];
      TextsOf(init, tags) + (if last.tag in tags then [last.text] else [])
  }

  /**
   * `TextsOf` is a filter: on a concatenation it is the texts of the first
   * part followed by those of the second, and a single element contributes
   * its text exactly when its tag is selected. Together these fix both the
   * order and the multiplicity of the result.
   */
  lemma {:induction false} TextsOfAppend(a: Document, b: Document, tags: set<string>)
    ensures TextsOf(a + b, tags) == TextsOf(a, tags) + TextsOf(b, tags)
    decreases |b|
  {
    if b == [] {
      assert a + b == a;
    } else {
      var init, last := b[..|b| - 1], b[|b| - 1];
      assert (a + b)[..|a + b| - 1] == a + init;
      assert (a + b)[|a + b| - 1] == last;
      TextsOfAppend(a, init, tags);
    }
  }

  lemma TextsOfSingle(e: Element, tags: set<string>)
    ensures TextsOf([], tags) == []
    ensures TextsOf([e], tags) == if e.tag in tags then [e.text] else []
  {
    assert [e][..0] == [];
  }

  /** The elements matching `a[href]`, in document order. */
  function Links(doc: Document): (links: seq<Element>)
    ensures |links| <= |doc|
    ensures forall e :: e in links <==> e in doc && IsLink(e)
  {
    if doc == [] then []
    else
      var last := doc[|doc| - 1];
      Links(doc[..|doc| - 1]) + (if IsLink(last) then [last] else [])
  }

  /**
   * `Links` is a filter: on a concatenation it is the links of the first
   * part followed by those of the second, and a single element is kept
   * exactly when it matches, so each match appears once and in page order.
   */
  lemma {:induction false} LinksAppend(a: Document, b: Document)
    ensures Links(a + b) == Links(a) + Links(b)
    decreases |b|
  {
    if b == [] {
      assert a + b == a;
    } else {
      var init, last := b[..|b| - 1], b[|b| - 1];
      assert (a + b)[..|a + b| - 1] == a + init;
      assert (a + b)[|a + b| - 1] == last;
      var tail := if IsLink(last) then [last] else [];
      assert Links(a + b) == Links(a + init) + tail;
      assert Links(b) == Links(init) + tail;
      LinksAppend(a, init);
    }
  }

  lemma LinksSingle(e: Element)
    ensures Links([]) == []
    ensures Links([e]) == if IsLink(e) then [e] else []
  {
    assert [e][..0] == [];
  }

}
