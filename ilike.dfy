/** `column.ilike('%term%')`: case-insensitive substring matching, with ASCII
    lower-casing and without LIKE wildcards. */
module Ilike {

  function LowerChar(c: char): char
  {
    if 'A' <= c <= 'Z' then (c as int + ('a' as int - 'A' as int)) as char else c
  }

  function Lower(s: string): (r: string)
    ensures |r| == |s|
  {
    seq(|s|, i requires 0 <= i < |s| => LowerChar(s[i]))
  }

  /** `pattern` occurs in `text` starting at index `i`. */
  predicate OccursAt(text: string, pattern: string, i: int)
  {
    0 <= i <= |text| - |pattern| && text[i..i + |pattern|] == pattern
  }

  /** Substring test, scanning `text` from the front. */
  predicate Contains(text: string, pattern: string)
    decreases |text|
  {
    pattern <= text || (text != [] && Contains(text[1..], pattern))
  }

  /** The scan finds `pattern` exactly when it occurs somewhere in `text`. */
  lemma {:induction false} ContainsIff(text: string, pattern: string)
    ensures Contains(text, pattern) <==> exists i :: OccursAt(text, pattern, i)
    decreases |text|
  {
    if pattern <= text {
      assert OccursAt(text, pattern, 0);
    } else if text != [] {
      ContainsIff(text[1..], pattern);
      if exists i :: OccursAt(text[1..], pattern, i) {
        var i :| OccursAt(text[1..], pattern, i);
        assert text[i + 1..i + 1 + |pattern|] == text[1..][i..i + |pattern|];
        assert OccursAt(text, pattern, i + 1);
      }
      if exists i :: OccursAt(text, pattern, i) {
        var i :| OccursAt(text, pattern, i);
        assert text[1..][i - 1..i - 1 + |pattern|] == text[i..i + |pattern|];
        assert OccursAt(text[1..], pattern, i - 1);
      }
    }
  }

  /** `column ILIKE '%' || term || '%'`. */
  predicate Matches(column: string, term: string): (b: bool)
    ensures b <==> exists i :: OccursAt(Lower(column), Lower(term), i)
  {
    ContainsIff(Lower(column), Lower(term));
    Contains(Lower(column), Lower(term))
  }

  /** Matching ignores the case of both sides: lower-casing the column or
      the term beforehand never changes the outcome. */
  lemma MatchesIgnoresCase(column: string, term: string)
    ensures Matches(Lower(column), term) == Matches(column, term)
    ensures Matches(column, Lower(term)) == Matches(column, term)
  {
    LowerIdempotent(column);
    LowerIdempotent(term);
  }

  lemma LowerIdempotent(s: string)
    ensures Lower(Lower(s)) == Lower(s)
  {
  }

  /** The empty term matches every column value. */
  lemma EmptyTermMatchesAll(column: string)
    ensures Matches(column, "")
  {
    ContainsIff(Lower(column), Lower(""));
    assert OccursAt(Lower(column), Lower(""), 0);
  }

  /** A term occurring literally in the column matches it. */
  lemma {:induction false} LiteralOccurrenceMatches(column: string, term: string, i: int)
    requires OccursAt(column, term, i)
    ensures Matches(column, term)
  {
    assert Lower(column)[i..i + |term|] == Lower(term);
    assert OccursAt(Lower(column), Lower(term), i);
    ContainsIff(Lower(column), Lower(term));
  }
}
