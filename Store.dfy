/** The two handlers that change the question table, `delete_question` and
    `add_question`, as methods of the database the application holds. */
module Store {

  import opened Wrappers
  import opened Http
  import opened Models
  import opened Pagination

  /** Where the database raises during a handler that writes: nowhere,
      before the write is committed (the lookup, the delete or the insert),
      or after it (the queries that build the response). */
  datatype Fault = NoFault | BeforeWrite | AfterWrite

  /** The fields of a `POST /questions` body. */
  datatype NewQuestion = NewQuestion(question: string, answer: string, category: int, difficulty: int)

  /** Payload of `DELETE /questions/<q_id>`. */
  datatype DeletePayload = DeletePayload(deleted: int, questions: seq<Question>, totalQuestions: int)

  /** Payload of `POST /questions`. */
  datatype CreatePayload = CreatePayload(created: int, questions: seq<Question>, totalQuestions: int)

  /** The trivia database: the category table, the question table in its
      storage order, and the sequence that hands out question ids. */
  class TriviaDb {
    var categories: seq<Category>
    var questions: seq<Question>
    var nextId: int

    /** Question ids are a primary key, and the id sequence is ahead of
        every id in the table. */
    ghost predicate Valid()
      reads this
    {
      && DistinctIds(questions)
      && forall q :: q in questions ==> q.id < nextId
    }

    constructor (categories: seq<Category>, questions: seq<Question>, nextId: int)
      requires DistinctIds(questions)
      requires forall q :: q in questions ==> q.id < nextId
      ensures Valid()
      ensures this.categories == categories && this.questions == questions && this.nextId == nextId
    {
      this.categories := categories;
      this.questions := questions;
      this.nextId := nextId;
    }

    /** `delete_question`. `fault` says where, if anywhere, the database
        raises. A missing id aborts with 404 inside the `try`, which the
        bare `except` turns into 422 like any other fault. A failure before
        the delete is committed leaves the table as it was; a failure after
        it answers 422 with the row already gone. A success removes exactly
        the row with that id and reports the requested page of the
        remaining questions in id order and their count. */
    method DeleteQuestion(qId: int, page: int, fault: Fault) returns (r: Result<DeletePayload>)
      requires Valid()
      modifies this`questions
      ensures Valid()
      ensures r.Err? <==> qId !in Ids(old(questions)) || fault != NoFault
      ensures r.Err? ==> r.status == Unprocessable
      ensures qId !in Ids(old(questions)) || fault == BeforeWrite ==> questions == old(questions)
      ensures qId in Ids(old(questions)) && fault != BeforeWrite ==>
        && questions == Without(old(questions), qId)
        && qId !in Ids(questions)
        && (forall q :: q in questions <==> q in old(questions) && q.id != qId)
        && |questions| == |old(questions)| - 1
      ensures r.Ok? ==>
        && r.value.deleted == qId
        && r.value.totalQuestions == |questions|
        && r.value.questions == Paginate(OrderById(questions), page)
    {
      var question := Lookup(questions, qId);
      if question.None? || fault == BeforeWrite {
        return Err(Unprocessable);
      }
      WithoutRows(questions, qId);
      WithoutCount(questions, qId);
      questions := Without(questions, qId);
      if fault == AfterWrite {
        return Err(Unprocessable);
      }
      var listed := Paginate(OrderById(questions), page);
      return Ok(DeletePayload(qId, listed, |questions|));
    }

    /** `add_question`. `body` is `None` when the request has no JSON
        object, which fails before anything is written; `fault` says where,
        if anywhere, the database raises. Every failure answers 422. A
        failure before the insert is committed leaves the table and the id
        sequence as they were; a failure after it keeps the new row. The
        insert appends one row carrying the given fields under the id the
        sequence hands out, which no row has yet. A success reports that id,
        the requested page of the table in storage order, and the new
        count. */
    method AddQuestion(body: Option<NewQuestion>, page: int, fault: Fault) returns (r: Result<CreatePayload>)
      requires Valid()
      modifies this`questions, this`nextId
      ensures Valid()
      ensures r.Err? <==> body.None? || fault != NoFault
      ensures r.Err? ==> r.status == Unprocessable
      ensures body.None? || fault == BeforeWrite ==> questions == old(questions) && nextId == old(nextId)
      ensures body.Some? && fault != BeforeWrite ==>
        var b := body.value;
        && old(nextId) !in Ids(old(questions))
        && questions == old(questions) + [Question(old(nextId), b.question, b.answer, b.category, b.difficulty)]
        && nextId == old(nextId) + 1
      ensures r.Ok? ==>
        && r.value.created == old(nextId)
        && r.value.totalQuestions == |old(questions)| + 1
        && r.value.questions == Paginate(questions, page)
    {
      if body.None? || fault == BeforeWrite {
        return Err(Unprocessable);
      }
      var b := body.value;
      var id := nextId;
      var row := Question(id, b.question, b.answer, b.category, b.difficulty);
      FreshAppendDistinct(questions, row);
      questions := questions + [row];
      nextId := nextId + 1;
      if fault == AfterWrite {
        return Err(Unprocessable);
      }
      return Ok(CreatePayload(id, Paginate(questions, page), |questions|));
    }
  }

  /** Appending a row whose id is not yet present keeps ids distinct. */
  lemma FreshAppendDistinct(qs: seq<Question>, row: Question)
    requires DistinctIds(qs) && row.id !in Ids(qs)
    ensures DistinctIds(qs + [row])
  {
  }

  /** Creating a question and then deleting the id it was given leaves the
      question table exactly as it was, so the count returns to its
      original value. */
  method CreateThenDelete(db: TriviaDb, body: NewQuestion, page: int)
    requires db.Valid()
    modifies db
    ensures db.Valid()
    ensures db.questions == old(db.questions)
  {
    var created := db.AddQuestion(Some(body), page, NoFault);
    var id := created.value.created;
    InsertThenDelete(old(db.questions), db.questions[|db.questions| - 1]);
    var deleted := db.DeleteQuestion(id, page, NoFault);
  }
}
