/**
 * Java string operations the crawler relies on, over `seq<char>`:
 * `String.contains`, ASCII `toLowerCase` and `equalsIgnoreCase`.
 * Locale-sensitive and non-ASCII case mapping is not modelled.
 */
module Text {

  /** `needle` occurs in `hay` starting at offset `i`. */
  predicate OccursAt(hay: string, needle: string, i: int)
  {
    0 <= i && i + |needle| <= |hay| && hay[i..i + |needle|] == needle
  }

  /** Java's `hay.contains(needle)`. */
  predicate Contains(hay: string, needle: string)
  {
    exists i | 0 <= i <= |hay| - |needle| :: OccursAt(hay, needle, i)
  }

  predicate IsUpper(c: char)
  {
    'A' <= c <= 'Z'
  }

  /** ASCII lower-casing of one character. */
  function LowerChar(c: char): char
  {
    if IsUpper(c) then (c as int + 32) as char else c
  }

  /** ASCII `toLowerCase`. */
  function ToLower(s: string): string
  {
    seq(|s|, i requires 0 <= i < |s| => LowerChar(s[i]))
  }

  /** Some character of `s` is an upper-case ASCII letter. */
  predicate HasUpper(s: string)
  {
    exists i | 0 <= i < |s| :: IsUpper(s[i])
  }

  /** ASCII `equalsIgnoreCase`. */
  predicate EqualsIgnoreCase(a: string, b: string)
  {
    ToLower(a) == ToLower(b)
  }

  /** The empty string is contained in every string (Java agrees). */
  lemma EmptyOccurs(hay: string)
    ensures Contains(hay, "")
  {
    assert OccursAt(hay, "", 0);
  }

  /** A string containing `needle` contains every prefix of `needle`. */
  lemma ContainsPrefix(hay: string, needle: string, prefix: string)
    requires Contains(hay, needle)
    requires |prefix| <= |needle| && needle[..|prefix|] == prefix
    ensures Contains(hay, prefix)
  {
    var i :| 0 <= i <= |hay| - |needle| && OccursAt(hay, needle, i);
    assert hay[i..i + |prefix|] == hay[i..i + |needle|][..|prefix|];
    assert OccursAt(hay, prefix, i);
  }

  /** Containment of a one-character string is membership of the character. */
  lemma ContainsChar(hay: string, c: char)
    ensures Contains(hay, [c]) <==> c in hay
  {
    if c in hay {
      var i :| 0 <= i < |hay| && hay[i] == c;
      assert OccursAt(hay, [c], i);
    }
    if Contains(hay, [c]) {
      var i :| 0 <= i <= |hay| - 1 && OccursAt(hay, [c], i);
      assert hay[i] == hay[i..i + 1][0];
    }
  }

  /** Lower-casing is idempotent. */
  lemma ToLowerIdempotent(s: string)
    ensures ToLower(ToLower(s)) == ToLower(s)
  {
  }

  /** Nothing in a lower-cased string is an upper-case letter. */
  lemma ToLowerHasNoUpper(s: string)
    ensures !HasUpper(ToLower(s))
  {
  }

  /** A string with an upper-case letter never occurs inside a lower-cased text. */
  lemma UpperNeverInLowered(text: string, word: string)
    requires HasUpper(word)
    ensures !Contains(ToLower(text), word)
  {
    forall i | 0 <= i <= |text| - |word|
      ensures !OccursAt(ToLower(text), word, i)
    {
      NoUpperSlice(text, i, i + |word|);
    }
  }

  /** A slice of a lower-cased text has no upper-case letter. */
  lemma NoUpperSlice(text: string, lo: int, hi: int)
    requires 0 <= lo <= hi <= |text|
    ensures !HasUpper(ToLower(text)[lo..hi])
  {
  }

}
