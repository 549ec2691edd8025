/** `paginate_questions`: a fixed page of ten, taken from the full list with
    a Python slice `[(page - 1) * 10 : page * 10]`. The slice follows Python's
    rules for every integer page, including zero and negative pages, whose
    bounds count back from the end of the list. */
module Pagination {

  const QuestionsPerPage: nat := 10

  /** Python's normalisation of one slice bound against a list of length `n`:
      a negative bound counts from the end, and the result is clipped to
      `0 .. n`. */
  function SliceBound(i: int, n: nat): (b: nat)
    ensures b <= n
    ensures 0 <= i <= n ==> b == i
    ensures i > n ==> b == n
    ensures i < 0 ==> b == if i + n < 0 then 0 else i + n
  {
    if i < 0 then (if i + n < 0 then 0 else i + n)
    else if i > n then n
    else i
  }

  /** Python's `s[start:end]` with step 1: empty when the normalised lower
      bound is not below the normalised upper bound. */
  function Slice<T>(s: seq<T>, start: int, end: int): seq<T>
  {
    var lo, hi := SliceBound(start, |s|), SliceBound(end, |s|);
    if lo < hi then s[lo..hi] else []
  }

  /** The page `page` of `items`: never more than a page's worth, each item
      taken from `items`. */
  function Paginate<T>(items: seq<T>, page: int): (r: seq<T>)
    ensures |r| <= QuestionsPerPage
    ensures forall x :: x in r ==> x in items
  {
    var start := (page - 1) * QuestionsPerPage;
    Slice(items, start, start + QuestionsPerPage)
  }

  /** Whether page `page` of a list of `n` items holds anything, in closed form. */
  predicate HasPage(n: nat, page: int)
  {
    if page >= 1 then (page - 1) * QuestionsPerPage < n
    else if page == 0 then false
    else -page * QuestionsPerPage < n
  }

  function Min(a: int, b: int): int { if a <= b then a else b }
  function Max(a: int, b: int): int { if a >= b then a else b }

  /** For a page of 1 or more, the page is the window of positions
      `(page - 1) * 10 .. page * 10 - 1`, clipped to the list. */
  lemma PageWindow<T>(items: seq<T>, page: int)
    requires page >= 1
    ensures var start := (page - 1) * QuestionsPerPage;
      && |Paginate(items, page)| == Min(QuestionsPerPage, Max(0, |items| - start))
      && forall k :: 0 <= k < |Paginate(items, page)| ==> Paginate(items, page)[k] == items[start + k]
  {
  }

  /** A page is empty exactly when `HasPage` says so, for every integer page. */
  lemma PageEmptyIff<T>(items: seq<T>, page: int)
    ensures Paginate(items, page) == [] <==> !HasPage(|items|, page)
  {
  }

  /** Page 0 is always empty: its slice is `[-10:0]`. */
  lemma PageZeroEmpty<T>(items: seq<T>)
    ensures Paginate(items, 0) == []
  {
  }

  /** A negative page counts back from the end of the list: page -1 of 25
      items is positions 5 to 14. */
  lemma NegativePageFromEnd<T>(items: seq<T>, page: int)
    requires page < 0
    ensures var lo := Max(0, |items| + (page - 1) * QuestionsPerPage);
      var hi := Max(0, |items| + page * QuestionsPerPage);
      Paginate(items, page) == items[lo..hi]
  {
  }

  /** Every item can be reached by a positive page: item `i` is entry
      `i % 10` of page `i / 10 + 1`. */
  lemma ItemOnItsPage<T>(items: seq<T>, i: int)
    requires 0 <= i < |items|
    ensures var p := i / QuestionsPerPage + 1;
      && i % QuestionsPerPage < |Paginate(items, p)|
      && Paginate(items, p)[i % QuestionsPerPage] == items[i]
  {
  }
}
