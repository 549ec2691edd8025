/** The request handlers of the trivia API that only read the tables:
    `retrieve_categories`, `retrieve_questions`, `search_questions`,
    `retrieve_questions_by_category` and `play_quiz`. Each takes the rows its
    queries return and the request's parameters, and yields the success
    payload or the status it aborts with. */
module Handlers {

  import opened Wrappers
  import opened Http
  import opened Models
  import opened Pagination
  import opened Search

  /** Payload of `GET /categories`. */
  datatype CategoriesPayload = CategoriesPayload(categories: map<int, string>)

  /** Payload of `GET /questions`. */
  datatype QuestionsPayload = QuestionsPayload(
    questions: seq<Question>,
    totalQuestions: int,
    categories: map<int, string>,
    currentCategory: Option<int>)

  /** Payload of `POST /questions/search`. */
  datatype SearchPayload = SearchPayload(questions: seq<Question>, currentCategory: Option<int>)

  /** Payload of `GET /categories/<c_id>/questions`. */
  datatype CategoryQuestionsPayload = CategoryQuestionsPayload(
    questions: seq<Question>,
    totalQuestions: int,
    currentCategory: int)

  /** Payload of `POST /quizzes`: the next question, or none when the
      category is exhausted. */
  datatype QuizPayload = QuizPayload(question: Option<Question>)

  function CategoryIds(cats: seq<Category>): set<int>
  {
    set c | c in cats :: c.id
  }

  /** The `{id: type}` dictionary built from the category rows; a later row
      overwrites an earlier one with the same id, as a dict comprehension does. */
  function CategoryMap(cats: seq<Category>): (m: map<int, string>)
    ensures m.Keys == CategoryIds(cats)
  {
    if cats == [] then map[]
    else
      var init, last := cats[..|cats| - 1], cats[|cats| - 1];
      assert cats == init + [last];
      CategoryMap(init)[last.id := last.kind]
  }

  /** With distinct ids (the table's primary key) every category id maps
      to that category's type, and the dictionary has one entry per row. */
  lemma {:induction false} CategoryMapEntries(cats: seq<Category>)
    requires DistinctCategoryIds(cats)
    ensures forall c :: c in cats ==> CategoryMap(cats)[c.id] == c.kind
    ensures |CategoryMap(cats)| == |cats|
  {
    if cats != [] {
      var init, last := cats[..|cats| - 1], cats[|cats| - 1];
      assert cats == init + [last];
      assert DistinctCategoryIds(init);
      CategoryMapEntries(init);
      assert last.id !in CategoryIds(init);
      forall c | c in cats ensures CategoryMap(cats)[c.id] == c.kind {
        if c != last {
          assert c in init;
          var k :| 0 <= k < |init| && init[k] == c;
          assert cats[k] == c;
        }
      }
    }
  }

  // ---------------------------------------------------------------------
  // GET /categories

  /** Aborts with 404 exactly when there are no categories; otherwise the
      keys of the payload are exactly the category ids. */
  function RetrieveCategories(cats: seq<Category>): (r: Result<CategoriesPayload>)
    ensures r.Err? <==> cats == []
    ensures r.Err? ==> r.status == NotFound
    ensures r.Ok? ==> r.value.categories.Keys == CategoryIds(cats)
    ensures r.Ok? ==> r.value.categories == CategoryMap(cats)
  {
    var categories := CategoryMap(cats);
    assert cats != [] ==> cats[0].id in categories;
    if |categories| == 0 then Err(NotFound)
    else Ok(CategoriesPayload(categories))
  }

  // ---------------------------------------------------------------------
  // GET /questions?page=N

  /** Aborts with 404 exactly when the requested page of the id-ordered
      questions is empty; otherwise reports the full question count, every
      category, and no current category. */
  function RetrieveQuestions(questions: seq<Question>, cats: seq<Category>, page: int): (r: Result<QuestionsPayload>)
    ensures r.Err? <==> !HasPage(|questions|, page)
    ensures r.Err? ==> r.status == NotFound
    ensures r.Ok? ==> && r.value.totalQuestions == |questions|
                      && r.value.currentCategory == None
                      && r.value.categories == CategoryMap(cats)
                      && r.value.categories.Keys == CategoryIds(cats)
                      && 0 < |r.value.questions| <= QuestionsPerPage
                      && AscendingIds(r.value.questions)
                      && (forall q :: q in r.value.questions ==> q in questions)
  {
    var ordered := OrderById(questions);
    OrderByIdSameRows(questions);
    var window := Paginate(ordered, page);
    PageEmptyIff(ordered, page);
    WindowAscending(ordered, page);
    if |window| == 0 then Err(NotFound)
    else Ok(QuestionsPayload(window, |ordered|, CategoryMap(cats), None))
  }

  /** A page of an id-ordered list is id-ordered. */
  lemma WindowAscending(ordered: seq<Question>, page: int)
    requires AscendingIds(ordered)
    ensures AscendingIds(Paginate(ordered, page))
  {
  }

  /** For a page of 1 or more the questions listed are the positions
      `(page - 1) * 10 ..` of the id-ordered table, as many of them as
      remain, up to 10. */
  lemma RetrieveQuestionsWindow(questions: seq<Question>, cats: seq<Category>, page: int)
    requires page >= 1
    ensures var r := RetrieveQuestions(questions, cats, page);
      var start := (page - 1) * QuestionsPerPage;
      r.Ok? ==>
        && |r.value.questions| == Min(QuestionsPerPage, Max(0, |questions| - start))
        && forall k :: 0 <= k < |r.value.questions| ==>
             r.value.questions[k] == OrderById(questions)[start + k]
  {
    PageWindow(OrderById(questions), page);
  }

  /** A page far past the end, such as 999999999, is not found. */
  lemma RetrieveQuestionsOutOfRange(questions: seq<Question>, cats: seq<Category>, page: int)
    requires page >= 1 && |questions| <= (page - 1) * QuestionsPerPage
    ensures RetrieveQuestions(questions, cats, page) == Err(NotFound)
  {
  }

  /** With 25 questions, page 1 lists 10 of them and reports all 25,
      page 3 lists the last 5, and page 4 is not found. */
  lemma TwentyFiveQuestions(questions: seq<Question>, cats: seq<Category>)
    requires |questions| == 25
    ensures var r := RetrieveQuestions(questions, cats, 1);
      r.Ok? && |r.value.questions| == 10 && r.value.totalQuestions == 25
    ensures var r := RetrieveQuestions(questions, cats, 3);
      r.Ok? && |r.value.questions| == 5
    ensures RetrieveQuestions(questions, cats, 4) == Err(NotFound)
  {
  }

  // ---------------------------------------------------------------------
  // POST /questions/search

  /** Aborts with 404 exactly when no question matches; otherwise lists, in
      ascending id order and without pagination, exactly the matching
      questions. */
  function SearchQuestions(questions: seq<Question>, term: string): (r: Result<SearchPayload>)
    ensures r.Err? <==> forall q :: q in questions ==> !Matches(q, term)
    ensures r.Err? ==> r.status == NotFound
    ensures r.Ok? ==> && (forall q :: q in r.value.questions <==> q in questions && Matches(q, term))
                      && AscendingIds(r.value.questions)
                      && r.value.currentCategory == None
    ensures r.Ok? ==> forall q ::
      multiset(r.value.questions)[q] == (if Matches(q, term) then multiset(questions)[q] else 0)
  {
    OrderByIdSameRows(questions);
    var found := Matching(OrderById(questions), term);
    MatchingMultiplicity(OrderById(questions), term);
    assert |found| > 0 ==> found[0] in found;
    if |found| == 0 then Err(NotFound)
    else Ok(SearchPayload(found, None))
  }

  /** An empty search term matches every question, so it fails only on an
      empty table. */
  lemma SearchEmptyTerm(questions: seq<Question>)
    ensures SearchQuestions(questions, "").Err? <==> questions == []
  {
  }

  // ---------------------------------------------------------------------
  // GET /categories/<c_id>/questions

  /** Aborts with 404 exactly when the database raises (`storeFault`) or
      no category has id `cId` (the lookup yields `None` and reading its id
      fails); the bare `except` turns both into 404. Otherwise succeeds,
      even when the page is empty, listing the requested page of the
      category's questions in id order and counting the whole category
      before pagination. */
  function RetrieveQuestionsByCategory(questions: seq<Question>, cats: seq<Category>, cId: int, page: int, storeFault: bool)
    : (r: Result<CategoryQuestionsPayload>)
    ensures r.Err? <==> storeFault || cId !in CategoryIds(cats)
    ensures r.Err? ==> r.status == NotFound
    ensures r.Ok? ==> r.value.questions == Paginate(OrderById(InCategory(questions, cId)), page)
    ensures r.Ok? ==> && r.value.currentCategory == cId
                      && r.value.totalQuestions == |InCategory(questions, cId)|
                      && |r.value.questions| <= QuestionsPerPage
                      && AscendingIds(r.value.questions)
                      && (forall q :: q in r.value.questions ==> q in questions && q.category == cId)
  {
    if storeFault || cId !in CategoryIds(cats) then Err(NotFound)
    else
      var filtered := OrderById(InCategory(questions, cId));
      OrderByIdSameRows(InCategory(questions, cId));
      WindowAscending(filtered, page);
      Ok(CategoryQuestionsPayload(Paginate(filtered, page), |filtered|, cId))
  }

  /** The category filter keeps every question of the category as often
      as the table holds it and no other question, so the count reported
      for a category is the number of its rows. */
  lemma {:induction false} InCategoryMultiplicity(questions: seq<Question>, c: int)
    ensures forall q ::
      multiset(InCategory(questions, c))[q] == (if q.category == c then multiset(questions)[q] else 0)
  {
    if questions != [] {
      InCategoryMultiplicity(questions[1..], c);
      assert questions == [questions[0]] + questions[1..];
    }
  }

  // ---------------------------------------------------------------------
  // POST /quizzes

  /** Whether a question belongs to the quiz category `cId`; category 0
      stands for every question. */
  predicate InQuiz(q: Question, cId: int)
  {
    cId == 0 || q.category == cId
  }

  /** The quiz's candidate pool before exclusion. */
  function QuizPool(questions: seq<Question>, cId: int): (pool: seq<Question>)
    ensures forall q :: q in pool <==> q in questions && InQuiz(q, cId)
  {
    if cId == 0 then questions else InCategory(questions, cId)
  }

  /** The pool after dropping previously asked questions; the exclusion is
      skipped when no question was asked before. */
  function Unseen(pool: seq<Question>, previous: seq<int>): seq<Question>
  {
    if |previous| > 0 then NotIn(pool, previous) else pool
  }

  /** Skipping the exclusion for an empty history changes nothing: the
      unseen questions are always exactly the pool minus the history. */
  lemma {:induction false} UnseenIsExclusion(pool: seq<Question>, previous: seq<int>)
    ensures Unseen(pool, previous) == NotIn(pool, previous)
  {
    if previous == [] {
      NotInNothing(pool, previous);
    }
  }

  lemma {:induction false} NotInNothing(qs: seq<Question>, previous: seq<int>)
    requires previous == []
    ensures NotIn(qs, previous) == qs
  {
    if qs != [] {
      NotInNothing(qs[1..], previous);
      assert qs == [qs[0]] + qs[1..];
    }
  }

  /** `play_quiz`. `previous` is `None` when the request carries no list of
      previous questions; taking its length then fails and the handler
      answers 404. `storeFault` says whether the database raises in the
      pool query, which the bare `except` also turns into 404. The random
      choice is any unseen question of the pool. Aborts with 404 exactly
      when the database raises, the pool is empty or the list is missing;
      otherwise returns an unseen pool question, or none exactly when every
      pool question was asked before. */
  method PlayQuiz(questions: seq<Question>, cId: int, previous: Option<seq<int>>, storeFault: bool)
    returns (r: Result<QuizPayload>)
    ensures r.Err? <==> storeFault || previous.None? || forall q :: q in questions ==> !InQuiz(q, cId)
    ensures r.Err? ==> r.status == NotFound
    ensures r.Ok? && r.value.question.Some? ==>
      var q := r.value.question.value;
      q in questions && InQuiz(q, cId) && q.id !in previous.value
    ensures r.Ok? ==>
      (r.value.question.None? <==> forall q :: q in questions && InQuiz(q, cId) ==> q.id in previous.value)
  {
    if storeFault {
      return Err(NotFound);
    }
    var pool := QuizPool(questions, cId);
    if |pool| == 0 {
      return Err(NotFound);
    }
    assert pool[0] in pool;
    if previous.None? {
      return Err(NotFound);
    }
    var remaining := Unseen(pool, previous.value);
    UnseenIsExclusion(pool, previous.value);
    var choice: Option<Question> := None;
    if |remaining| > 0 {
      assert remaining[0] in remaining;
      var q :| q in remaining;
      choice := Some(q);
    } else {
      forall q | q in questions && InQuiz(q, cId) ensures q.id in previous.value {
        assert q in pool;
      }
    }
    return Ok(QuizPayload(choice));
  }
}
