/** Text matching used by the search route: SQL `ILIKE '%q%'` on SQLite, which
    lower-cases both sides with the ASCII-only `lower()` and then looks for the
    query as a contiguous substring. The LIKE wildcards `%` and `_` are excluded
    from queries by `NoWildcards`. */
module Text {

  predicate IsUpper(c: char) {
    'A' <= c <= 'Z'
  }

  /** ASCII lower-casing of one character; everything outside A-Z is kept. */
  function LowerChar(c: char): (r: char)
    ensures !IsUpper(r)
    ensures IsUpper(c) ==> r as int - c as int == 32
    ensures !IsUpper(c) ==> r == c
  {
    if IsUpper(c) then (c as int + 32) as char else c
  }

  function ToLower(s: string): (r: string)
    ensures |r| == |s|
    ensures forall i :: 0 <= i < |s| ==> r[i] == LowerChar(s[i])
  {
    if |s| == 0 then [] else [LowerChar(s[0])] + ToLower(s[1..])
  }

  /** Lower-casing twice is lower-casing once. */
  lemma ToLowerIdempotent(s: string)
    ensures ToLower(ToLower(s)) == ToLower(s)
  {
    var once := ToLower(s);
    var twice := ToLower(once);
    assert forall i :: 0 <= i < |s| ==> twice[i] == once[i];
  }

  /** `needle` sits in `hay` starting at position `i`. */
  ghost predicate OccursAt(hay: string, needle: string, i: int) {
    0 <= i && i + |needle| <= |hay| && hay[i..i + |needle|] == needle
  }

  /** Reference definition of "contains as a contiguous substring". */
  ghost predicate IsSubstring(needle: string, hay: string) {
    exists i :: OccursAt(hay, needle, i)
  }

  /** Substring test by scanning the start positions left to right. */
  function Contains(hay: string, needle: string): bool
    decreases |hay|
  {
    if |needle| > |hay| then false
    else if needle == hay[..|needle|] then true
    else Contains(hay[1..], needle)
  }

  /** The scan agrees with the reference definition on every input. */
  lemma {:induction false} ContainsIsSubstring(hay: string, needle: string)
    ensures Contains(hay, needle) <==> IsSubstring(needle, hay)
    decreases |hay|
  {
    if |needle| > |hay| {
      assert forall i :: !OccursAt(hay, needle, i);
    } else if needle == hay[..|needle|] {
      assert OccursAt(hay, needle, 0);
    } else {
      ContainsIsSubstring(hay[1..], needle);
      if Contains(hay[1..], needle) {
        var i :| OccursAt(hay[1..], needle, i);
        assert hay[1..][i..i + |needle|] == hay[i + 1..i + 1 + |needle|];
        assert OccursAt(hay, needle, i + 1);
      }
      forall i | OccursAt(hay, needle, i)
        ensures OccursAt(hay[1..], needle, i - 1)
      {
        assert hay[1..][i - 1..i - 1 + |needle|] == hay[i..i + |needle|];
      }
    }
  }

  /** The empty string occurs in every string, so `ILIKE '%%'` matches all rows. */
  lemma {:induction false} ContainsEmpty(hay: string)
    ensures Contains(hay, [])
  {
    assert [] == hay[..0];
  }

  /** `value ILIKE '%q%'` for a query without wildcards. */
  predicate ILike(value: string, q: string) {
    Contains(ToLower(value), ToLower(q))
  }

  /** No LIKE metacharacter in the query: it is matched literally. */
  predicate NoWildcards(q: string) {
    forall i :: 0 <= i < |q| ==> q[i] != '%' && q[i] != '_'
  }

  /** ILIKE holds exactly when the lower-cased query is a substring of the
      lower-cased value. */
  lemma ILikeIsSubstring(value: string, q: string)
    ensures ILike(value, q) <==> IsSubstring(ToLower(q), ToLower(value))
  {
    ContainsIsSubstring(ToLower(value), ToLower(q));
  }

  /** ILIKE does not see the case of either side. */
  lemma ILikeIgnoresCase(value: string, q: string)
    ensures ILike(ToLower(value), q) == ILike(value, q)
    ensures ILike(value, ToLower(q)) == ILike(value, q)
  {
    ToLowerIdempotent(value);
    ToLowerIdempotent(q);
  }
}
