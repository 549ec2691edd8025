# Trivia API request handlers, modelled in Dafny

This project models the request-handling layer of a small trivia-game HTTP
API (`backend/flaskr/__init__.py`). The API serves categories and questions.
It lists questions ten to a page, searches question text without regard to
case, deletes and creates questions, and plays a quiz by picking an unseen
question from a category. Failures answer with a fixed JSON error envelope.

The database is modelled as an in-memory store:

- the category table is a `seq<Category>`;
- the question table is a `seq<Question>` in storage order;
- an id sequence (`nextId`) hands out fresh question ids.

Modules:

- `Http` (Http.dfy): the error statuses, their codes and messages, the error
  envelope, and `Result<T>` (a success payload, or an abort with a status).
- `Models` (Models.dfy): the `Category` and `Question` rows, and the queries
  the handlers run. These are ordering by id (an insertion sort), the
  category filter, the exclusion of previously asked ids, lookup by id and
  deletion.
- `Pagination` (Pagination.dfy): `paginate_questions`, with Python's slice
  rules for every integer page.
- `Search` (Search.dfy): the case-insensitive substring test of the search
  handler.
- `Handlers` (Handlers.dfy): the read-only handlers, as functions of the
  table contents and request parameters. `play_quiz` is a method, because
  its random pick is a nondeterministic choice.
- `Store` (Store.dfy): the class `TriviaDb`, whose methods `DeleteQuestion`
  and `AddQuestion` change the question table in place.

Pagination follows Python slicing exactly, so no precondition `page >= 1` is
needed. Page 0 is always empty, because its slice is `[-10:0]`. A negative
page counts back from the end of the list: with 25 questions, `page=-1` lists
positions 5 to 14. `HasPage` gives the closed form of "the page is not
empty", and `GET /questions` answers 404 exactly when that form is false.

Where the documented behaviour of the API and its code differ, the model
follows the code:

- Delete and create paginate with the request's `page` parameter, not
  always page 1.
- Create paginates `Question.query.all()`, which is in storage order, not id
  order.
- In `play_quiz`, reading `quiz_category` happens outside the `try`. So a
  missing category is an uncaught fault (500), not 404. That path is not
  modelled.
- A missing `previous_questions` fails inside the `try`, at the `len(...)`
  call, and is modelled as 404.

## Model

| member | source | states |
|---|---|---|
| `Http.HandlerFor` | backend/flaskr/__init__.py:181-219 | exactly the codes 400, 404, 405, 422 and 500 have an error handler |
| `Http.CodeRoundTrip` | backend/flaskr/__init__.py:181-219 | the status-to-code table is a bijection onto the handled codes |
| `Http.MessagesDistinct` | backend/flaskr/__init__.py:181-219 | no two statuses share a message |
| `Http.Envelope` | backend/flaskr/__init__.py:181-219 | an error body has `success` false, and its `error` field selects the handler of the same status |
| `Http.StatusCode` | backend/flaskr/__init__.py:181-219 | a success answers 200; a failure answers the code whose handler is its status |
| `Http.EnvelopeMatchesStatus` | backend/flaskr/__init__.py:181-219 | the envelope's `error` equals the response's status code, and its message is that status's fixed message |
| `Pagination.Paginate` | backend/flaskr/__init__.py:13-18 | a page never holds more than 10 items, and every item comes from the list |
| `Pagination.PageWindow` | backend/flaskr/__init__.py:13-18 | for page >= 1, the page holds positions `(page-1)*10 ..` of the list, and its length is `min(10, max(0, n-(page-1)*10))` |
| `Pagination.PageEmptyIff` | backend/flaskr/__init__.py:13-18 | for every integer page, the page is empty exactly when `HasPage` is false |
| `Pagination.PageZeroEmpty` | backend/flaskr/__init__.py:15-17 | page 0 is always empty |
| `Pagination.NegativePageFromEnd` | backend/flaskr/__init__.py:15-17 | a negative page is the window `[n+(page-1)*10, n+page*10)`, clipped at 0 |
| `Pagination.ItemOnItsPage` | backend/flaskr/__init__.py:13-18 | item `i` is entry `i % 10` of page `i / 10 + 1`, so every item is reachable through a positive page |
| `Models.OrderById` | backend/flaskr/__init__.py:53 | `order_by(Question.id)` returns the same rows, as a permutation, in ascending id order |
| `Models.OrderByIdSameRows` | backend/flaskr/__init__.py:53 | ordering keeps exactly the same rows and ids |
| `Models.AscendingUnique` | backend/flaskr/__init__.py:53 | with distinct ids, only one arrangement of a set of rows is in ascending id order |
| `Models.OrderByIdOfAscending` | backend/flaskr/__init__.py:53 | ordering a list that is already in id order changes nothing |
| `Models.InCategory` | backend/flaskr/__init__.py:139-140 | the category filter keeps exactly the rows of that category, and keeps id order |
| `Models.NotIn` | backend/flaskr/__init__.py:165-169 | the exclusion keeps exactly the rows whose id is not among the previous ids, and keeps id order |
| `Models.Lookup` | backend/flaskr/__init__.py:75-77 | `one_or_none` finds a row exactly when the id is present, and the row it finds has that id |
| `Models.WithoutRows` | backend/flaskr/__init__.py:79 | after a delete, the remaining rows are exactly the old rows with another id; the id is gone; ids stay distinct |
| `Models.WithoutCount` | backend/flaskr/__init__.py:79 | deleting a present id removes exactly one row; deleting an absent id removes none |
| `Models.InsertThenDelete` | backend/flaskr/__init__.py:72-117 | inserting a row with a fresh id and then deleting that id restores the table exactly |
| `Search.ContainsIff` | backend/flaskr/__init__.py:123-124 | `Contains` holds exactly when the term occurs at some position of the text |
| `Search.Matching` | backend/flaskr/__init__.py:122-124 | the search filter keeps exactly the matching questions, and keeps id order |
| `Search.MatchingMultiplicity` | backend/flaskr/__init__.py:122-124 | the search filter lists each matching question as often as the table holds it, and no other question |
| `Search.MatchesIgnoresTermCase` | backend/flaskr/__init__.py:123-124 | a term and its lower-cased form match the same questions |
| `Search.MatchesIgnoresTextCase` | backend/flaskr/__init__.py:123-124 | lower-casing a question's text does not change whether it matches |
| `Handlers.CategoryMap` | backend/flaskr/__init__.py:38-41 | the `{id: type}` dictionary has exactly the category ids as keys |
| `Handlers.CategoryMapEntries` | backend/flaskr/__init__.py:38-41 | with distinct ids, each id maps to its own category's type, and there is one entry per row |
| `Handlers.RetrieveCategories` | backend/flaskr/__init__.py:36-49 | 404 exactly when the category table is empty; otherwise the answer is the `{id: type}` dictionary of the table, whose keys are exactly the category ids |
| `Handlers.RetrieveQuestions` | backend/flaskr/__init__.py:51-70 | 404 exactly when the requested page is empty; otherwise the total is the full count, the categories are the `{id: type}` dictionary of the table, the current category is null, and the page holds 1 to 10 of the questions in id order |
| `Handlers.RetrieveQuestionsWindow` | backend/flaskr/__init__.py:53-55 | for page >= 1, the listed questions are positions `(page-1)*10 ..` of the id-ordered table, `min(10, max(0, n-(page-1)*10))` of them |
| `Handlers.RetrieveQuestionsOutOfRange` | backend/test_flaskr.py:56-61 | a page past the end, such as 999999999, is 404 |
| `Handlers.TwentyFiveQuestions` | backend/flaskr/__init__.py:51-70 | with 25 questions: page 1 lists 10 with total 25, page 3 lists 5, and page 4 is 404 |
| `Handlers.SearchQuestions` | backend/flaskr/__init__.py:119-133 | 404 exactly when no question matches; otherwise exactly the matching questions, each as often as the table holds it, in ascending id order, unpaginated, with a null current category |
| `Handlers.SearchEmptyTerm` | backend/flaskr/__init__.py:119-133 | an empty term matches everything, so it is 404 only on an empty table |
| `Handlers.RetrieveQuestionsByCategory` | backend/flaskr/__init__.py:135-149 | 404 exactly when the database raises or the category id is unknown; otherwise 200 even for an empty page, listing the requested page of the category's questions in id order, with `current_category == c_id` and the total counting the whole category |
| `Handlers.InCategoryMultiplicity` | backend/flaskr/__init__.py:139-145 | the category filter keeps each question of the category as often as the table holds it, and no other question |
| `Handlers.QuizPool` | backend/flaskr/__init__.py:157-161 | the pool is every question for category 0, and otherwise exactly the questions of that category |
| `Handlers.UnseenIsExclusion` | backend/flaskr/__init__.py:164-169 | skipping the exclusion for an empty history gives the same pool as excluding nothing |
| `Handlers.PlayQuiz` | backend/flaskr/__init__.py:151-179 | 404 exactly when the database raises, the pool is empty or the history is missing; otherwise any returned question is in the pool and was not asked before, and the result is null exactly when every pool question was asked before |
| `Store.TriviaDb.DeleteQuestion` | backend/flaskr/__init__.py:72-91 | 422 exactly when the id is absent or the database raises; the table is unchanged when the id is absent or the fault comes before the delete, and loses the row when it comes after; on success the row is removed and every other row stays, the count drops by one, `deleted == q_id`, and the page is taken from the remaining questions in id order |
| `Store.TriviaDb.AddQuestion` | backend/flaskr/__init__.py:93-117 | 422 exactly when the body is missing or the database raises; the table and id sequence are unchanged when the body is missing or the fault comes before the insert; otherwise one row with the given fields is appended under the next, fresh id and the sequence advances, even when a later query fails; on success `created` is that id, the count grows by one and the page is taken from the table in storage order |
| `Store.FreshAppendDistinct` | backend/flaskr/__init__.py:107 | appending a row with a fresh id keeps ids distinct |
| `Store.CreateThenDelete` | backend/flaskr/__init__.py:72-117 | creating a question and deleting the id it was given leaves the question table as it was |

## Left out

- Flask application set-up, routing, `jsonify`, the CORS set-up and the `after_request` headers. This is framework plumbing.
- The 405 responses come from Flask's routing, not from a handler. Only the code-to-message table includes 405.
- `models.py` is not part of this model. `Question.format()` and `Category.format()` are treated as the identity on the row. `insert()`, `delete()` and the queries are modelled by the in-memory store.
- Faults of the database are parameters of the four handlers whose bare `except` catches them. `DeleteQuestion` and `AddQuestion` take a `Fault` (none, before the write, after the write) and answer 422. `RetrieveQuestionsByCategory` and `PlayQuiz` take a `storeFault` flag and answer 404. In `retrieve_categories`, `retrieve_questions` and `search_questions` a fault is uncaught (500); those paths are not modelled.
- `Store.TriviaDb.AddQuestion`: a field missing from the body becomes a null column. Whether the database accepts that depends on the schema in `models.py`, so a refusal is a fault before the write. The body's fields are typed values.
- `Store.TriviaDb.AddQuestion`: the id sequence is left unchanged by an insert that fails before it is committed. A real sequence may have consumed a value, which would not change any stated property.
- `Store.TriviaDb.AddQuestion`: the new row is appended at the end of storage order. The order of an unordered query is up to the database.
- `random.choice` is a nondeterministic choice in `PlayQuiz`. No claim is made about its distribution.
- Malformed request bodies:
  - a `quiz_category` that is missing or lacks an `id` (an uncaught fault outside the `try`);
  - a `previous_questions` that is present but is not a list of ids;
  - a null `searchTerm` (SQL NULL semantics).
  The model takes a well-formed category id, an optional list of ids, and a string term.
- `Search.Matching`: SQL `LIKE` treats `%`, `_` and the backslash in the search term as pattern characters. The model reads the term as a plain substring.
- `Search.Lower`: only ASCII letters are lower-cased. The database's `lower()` is locale-aware.
- The `page` query parameter is taken as the integer that request parsing produced. A non-numeric value falls back to 1 before the handler sees it.
- The `print(data)` call in `add_question`, the test harness and the database set-up of the tests.
- Concurrency: each request is one atomic step on the store.
