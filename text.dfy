/** The text matching behind the student search: `column ILIKE '%query%'`,
    a case-insensitive substring test. Case is folded on ASCII letters. */
module Text {

  function LowerChar(c: char): char
  {
    if 'A' <= c <= 'Z' then (c as int + 32) as char else c
  }

  predicate IsUpper(c: char)
  {
    'A' <= c <= 'Z'
  }

  /** `s` with every ASCII capital replaced by its small letter. */
  function Lower(s: string): (r: string)
    ensures |r| == |s|
    ensures forall i :: 0 <= i < |s| ==> r[i] == LowerChar(s[i])
    ensures forall i :: 0 <= i < |r| ==> !IsUpper(r[i])
  {
    if s == [] then [] else [LowerChar(s[0])] + Lower(s[1..])
  }

  /** `needle` occurs in `hay` starting at position i. */
  ghost predicate OccursAt(needle: string, hay: string, i: int)
  {
    0 <= i && i + |needle| <= |hay| && hay[i..i + |needle|] == needle
  }

  /** Whether `needle` is a substring of `hay`. */
  function Contains(hay: string, needle: string): (b: bool)
    ensures b <==> exists i :: OccursAt(needle, hay, i)
    decreases |hay|
  {
    if |needle| > |hay| then false
    else if hay[..|needle|] == needle then
      assert OccursAt(needle, hay, 0);
      true
    else
      var rest := Contains(hay[1..], needle);
      assert rest ==> exists i :: OccursAt(needle, hay, i) by {
        if rest {
          var j :| OccursAt(needle, hay[1..], j);
          assert hay[1..][j..j + |needle|] == hay[j + 1..j + 1 + |needle|];
          assert OccursAt(needle, hay, j + 1);
        }
      }
      assert (exists i :: OccursAt(needle, hay, i)) ==> rest by {
        if exists i :: OccursAt(needle, hay, i) {
          var i :| OccursAt(needle, hay, i);
          assert i != 0;
          assert hay[1..][i - 1..i - 1 + |needle|] == hay[i..i + |needle|];
          assert OccursAt(needle, hay[1..], i - 1);
        }
      }
      rest
  }

  /** `text ILIKE '%query%'`: `query` occurs in `text` up to ASCII case. */
  function ILike(text: string, query: string): (b: bool)
    ensures b ==> exists i :: OccursAt(Lower(query), Lower(text), i)
    ensures (exists i :: OccursAt(Lower(query), Lower(text), i)) ==> b
  {
    Contains(Lower(text), Lower(query))
  }

  /** Folding case twice is folding it once. */
  lemma LowerIdempotent(s: string)
    ensures Lower(Lower(s)) == Lower(s)
  {
  }

  /** The search does not depend on the case of the query or of the text. */
  lemma ILikeIgnoresCase(text: string, query: string)
    ensures ILike(text, query) == ILike(Lower(text), query) == ILike(text, Lower(query))
  {
    LowerIdempotent(text);
    LowerIdempotent(query);
  }

  /** A text always matches itself, in any case. */
  lemma ILikeReflexive(text: string)
    ensures ILike(text, text)
  {
  }

  /** A query that matches a part of a text matches the whole text. */
  lemma ILikeWidens(text: string, query: string, i: int, j: int)
    requires 0 <= i <= j <= |text|
    requires ILike(text[i..j], query)
    ensures ILike(text, query)
  {
    var lp, l, q := Lower(text[i..j]), Lower(text), Lower(query);
    var k :| OccursAt(q, lp, k);
    assert lp == l[i..j];
    assert l[i..j][k..k + |q|] == l[i + k..i + k + |q|];
    assert OccursAt(q, l, i + k);
  }
}
