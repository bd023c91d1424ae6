/**
 * The categoriser: tags a page with every vocabulary entry that occurs in
 * the lower-cased text of its title and headings (plain substring match).
 * Vocabulary lines are kept verbatim, so an entry with an upper-case letter
 * never matches and an empty entry matches every text.
 */
module Category {
  import opened Wrappers
  import opened Seqs
  import opened Text
  import opened Html

  /** The elements `getTags(Document)` reads: `title,h1,h2,h3`. */
  const HeadingTags: set<string> := {"title", "h1", "h2", "h3"}
  /** The elements `getTagsFromCtfTimes` reads: `h2,span`. */
  const CtftimeTags: set<string> := {"h2", "span"}

  /** The vocabulary built from the category file's lines, one entry per line as read. */
  function Vocabulary(lines: seq<string>): (vocab: set<string>)
    ensures forall c :: c in vocab <==> c in lines
  {
    if lines == [] then {} else Vocabulary(lines[..|lines| - 1]) + {lines[|lines| - 1]}
  }

  /** Reference meaning of a tag set: the entries occurring in the lower-cased text. */
  function Matching(vocab: set<string>, text: string): set<string>
  {
    set c | c in vocab && Contains(ToLower(text), c)
  }

  /** `getTags(String)`: one pass over the vocabulary. */
  method GetTags(vocab: set<string>, text: string) returns (tags: set<string>)
    ensures tags <= vocab
    ensures forall c :: c in tags <==> c in vocab && Contains(ToLower(text), c)
  {
    var lowered := ToLower(text);
    tags := {};
    var remaining := vocab;
    while remaining != {}
      invariant remaining <= vocab
      invariant forall c :: c in tags <==> c in vocab && c !in remaining && Contains(lowered, c)
      decreases remaining
    {
      var c :| c in remaining;
      if Contains(lowered, c) {
        tags := tags + {c};
      }
      remaining := remaining - {c};
    }
  }

  /** The union of the tag sets of several texts. */
  function TagUnion(vocab: set<string>, texts: seq<string>): set<string>
  {
    if texts == [] then {} else TagUnion(vocab, texts[..|texts| - 1]) + Matching(vocab, texts[|texts| - 1])
  }

  /** A tag is in the union exactly when some text, lower-cased, contains it. */
  lemma {:induction false} TagUnionMembership(vocab: set<string>, texts: seq<string>, c: string)
    ensures c in TagUnion(vocab, texts)
        <==> c in vocab && exists t :: t in texts && Contains(ToLower(t), c)
    decreases |texts|
  {
    if texts != [] {
      var init := texts[..|texts| - 1];
      TagUnionMembership(vocab, init, c);
      assert texts == init + [texts[|texts| - 1]];
    }
  }

  /** Lower-casing the text before tagging changes nothing. */
  lemma LoweringTwiceHarmless(vocab: set<string>, text: string)
    ensures Matching(vocab, ToLower(text)) == Matching(vocab, text)
  {
    ToLowerIdempotent(text);
  }

  /** An entry holding an upper-case letter is never a tag. */
  lemma UpperEntryNeverTagged(vocab: set<string>, text: string, c: string)
    requires HasUpper(c)
    ensures c !in Matching(vocab, text)
  {
    UpperNeverInLowered(text, c);
  }

  /** An empty entry is a tag of every text. */
  lemma EmptyEntryAlwaysTagged(vocab: set<string>, text: string)
    requires "" in vocab
    ensures "" in Matching(vocab, text)
  {
    EmptyOccurs(ToLower(text));
  }

  /**
   * `HashSet.toArray`: the tags in some order, each once; the empty set gives
   * the array's `null` stand-in `None`, as both `getTags(Document)` and
   * `getTagsFromCtfTimes` return.
   */
  method ToTagArray(tags: set<string>) returns (r: Option<seq<string>>)
    ensures r.None? <==> tags == {}
    ensures r.Some? ==> NoDup(r.value) && |r.value| == |tags|
    ensures r.Some? ==> forall c :: c in r.value <==> c in tags
  {
    if tags == {} {
      return None;
    }
    var items := SetToSeq(tags);
    r := Some(items);
  }

  /** The tag set of each text, lower-cased once more by the callee, joined. */
  method TagsOfTexts(vocab: set<string>, texts: seq<string>) returns (tags: set<string>)
    ensures tags == TagUnion(vocab, texts)
  {
    tags := {};
    for i := 0 to |texts|
      invariant tags == TagUnion(vocab, texts[..i])
    {
      var found := GetTags(vocab, ToLower(texts[i]));
      LoweringTwiceHarmless(vocab, texts[i]);
      assert texts[..i + 1][..i] == texts[..i];
      tags := tags + found;
    }
    assert texts[..|texts|] == texts;
  }

  /**
   * `getTags(Document)`: the tags of the title and h1-h3 texts; `None` when
   * no entry occurs in any of them, otherwise each such entry exactly once.
   */
  method GetTagsOfDocument(vocab: set<string>, doc: Document) returns (r: Option<seq<string>>)
    ensures r.None? <==> forall t :: t in TextsOf(doc, HeadingTags) ==> Matching(vocab, t) == {}
    ensures r.Some? ==> NoDup(r.value)
    ensures r.Some? ==> forall c :: c in r.value <==>
      c in vocab && exists t :: t in TextsOf(doc, HeadingTags) && Contains(ToLower(t), c)
  {
    var texts := TextsOf(doc, HeadingTags);
    var tags := TagsOfTexts(vocab, texts);
    TagUnionEmpty(vocab, texts);
    forall c {
      TagUnionMembership(vocab, texts, c);
    }
    r := ToTagArray(tags);
  }

  /**
   * `getTagsFromCtfTimes`: the same containment rule over the h2 and span
   * texts, with the same `None` when nothing matches.
   */
  method GetTagsFromCtfTimes(vocab: set<string>, doc: Document) returns (r: Option<seq<string>>)
    ensures r.None? <==> forall t :: t in TextsOf(doc, CtftimeTags) ==> Matching(vocab, t) == {}
    ensures r.Some? ==> NoDup(r.value)
    ensures r.Some? ==> forall c :: c in r.value <==>
      c in vocab && exists t :: t in TextsOf(doc, CtftimeTags) && Contains(ToLower(t), c)
  {
    var texts := TextsOf(doc, CtftimeTags);
    var tags := TagsOfTexts(vocab, texts);
    TagUnionEmpty(vocab, texts);
    forall c {
      TagUnionMembership(vocab, texts, c);
    }
    r := ToTagArray(tags);
  }

  /** The union is empty exactly when every text has an empty tag set. */
  lemma {:induction false} TagUnionEmpty(vocab: set<string>, texts: seq<string>)
    ensures TagUnion(vocab, texts) == {} <==> forall t :: t in texts ==> Matching(vocab, t) == {}
    decreases |texts|
  {
    if texts != [] {
      var init := texts[..|texts| - 1];
      TagUnionEmpty(vocab, init);
      assert texts == init + [texts[|texts| - 1]];
    }
  }

  /** The tagging example: "Crypto Writeup" over {crypto, forensic} gives {crypto}. */
  lemma CryptoWriteupExample()
    ensures Matching({"crypto", "forensic"}, "Crypto Writeup") == {"crypto"}
  {
    var lowered := ToLower("Crypto Writeup");
    assert lowered == "crypto writeup";
    assert OccursAt(lowered, "crypto", 0);
    assert !Contains(lowered, "forensic") by {
      forall i | 0 <= i <= |lowered| - 8
        ensures !OccursAt(lowered, "forensic", i)
      {
        assert lowered[i..i + 8][0] == lowered[i];
      }
    }
  }

}
