/** The search predicate of `search_questions`:
    `lower(question) LIKE '%' || lower(term) || '%'`, read as a
    case-insensitive substring test. */
module Search {

  import opened Models

  /** Lower-cases one ASCII letter and leaves every other character alone. */
  function LowerChar(c: char): (d: char)
    ensures 'A' <= c <= 'Z' ==> 'a' <= d <= 'z' && d as int == c as int + 32
    ensures !('A' <= c <= 'Z') ==> d == c
  {
    if 'A' <= c <= 'Z' then (c as int + 32) as char else c
  }

  function Lower(s: string): (r: string)
    ensures |r| == |s|
    ensures forall i :: 0 <= i < |s| ==> r[i] == LowerChar(s[i])
  {
    if s == [] then [] else [LowerChar(s[0])] + Lower(s[1..])
  }

  /** Lower-casing twice is lower-casing once. */
  lemma LowerIdempotent(s: string)
    ensures Lower(Lower(s)) == Lower(s)
  {
  }

  /** Whether `needle` occurs in `hay`, scanning start positions left to right. */
  predicate Contains(hay: string, needle: string)
  {
    (|needle| <= |hay| && hay[..|needle|] == needle)
    || (hay != [] && Contains(hay[1..], needle))
  }

  /** `needle` occurs in `hay` starting at position `i`. */
  predicate OccursAt(hay: string, needle: string, i: int)
  {
    0 <= i <= |hay| - |needle| && hay[i..i + |needle|] == needle
  }

  /** `Contains` is the substring relation: it holds exactly when `needle`
      occurs in `hay` at some position. */
  lemma {:induction false} ContainsIff(hay: string, needle: string)
    ensures Contains(hay, needle) <==> exists i :: OccursAt(hay, needle, i)
  {
    if hay == [] {
      if Contains(hay, needle) {
        assert OccursAt(hay, needle, 0);
      }
    } else {
      ContainsIff(hay[1..], needle);
      if |needle| <= |hay| && hay[..|needle|] == needle {
        assert OccursAt(hay, needle, 0);
      }
      if Contains(hay[1..], needle) {
        var i :| OccursAt(hay[1..], needle, i);
        assert hay[i + 1..i + 1 + |needle|] == hay[1..][i..i + |needle|];
        assert OccursAt(hay, needle, i + 1);
      }
      if i :| OccursAt(hay, needle, i) {
        if i > 0 {
          assert hay[1..][i - 1..i - 1 + |needle|] == hay[i..i + |needle|];
          assert OccursAt(hay[1..], needle, i - 1);
        }
      }
    }
  }

  /** A question matches a search term when its text, lower-cased, contains
      the term, lower-cased. */
  predicate Matches(q: Question, term: string)
  {
    Contains(Lower(q.question), Lower(term))
  }

  /** The questions of `qs` that match `term`, in their original order. */
  function Matching(qs: seq<Question>, term: string): (r: seq<Question>)
    ensures forall q :: q in r <==> q in qs && Matches(q, term)
    ensures AscendingIds(qs) ==> AscendingIds(r)
  {
    if qs == [] then []
    else
      var rest := Matching(qs[1..], term);
      assert forall q :: q in qs <==> q == qs[0] || q in qs[1..];
      FilterStep(qs, rest);
      if Matches(qs[0], term) then
        [qs[0]] + rest
      else
        rest
  }

  /** The search filter keeps every matching question as often as `qs`
      holds it and no other question: each matching row is listed once per
      row. */
  lemma {:induction false} MatchingMultiplicity(qs: seq<Question>, term: string)
    ensures forall q ::
      multiset(Matching(qs, term))[q] == (if Matches(q, term) then multiset(qs)[q] else 0)
  {
    if qs != [] {
      MatchingMultiplicity(qs[1..], term);
      assert qs == [qs[0]] + qs[1..];
    }
  }

  /** The search ignores the case of the term: a term and its lower-cased
      form find the same questions. */
  lemma MatchesIgnoresTermCase(q: Question, term: string)
    ensures Matches(q, term) <==> Matches(q, Lower(term))
  {
    LowerIdempotent(term);
  }

  /** The search ignores the case of the question text as well. */
  lemma MatchesIgnoresTextCase(q: Question, term: string)
    ensures Matches(q, term) <==> Matches(q.(question := Lower(q.question)), term)
  {
    LowerIdempotent(q.question);
  }
}
