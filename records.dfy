/**
 * The records of the trivia service, the response shapes of its handlers and the
 * fixed error bodies of its four error handlers.
 */
module Trivia {
  import opened Wrappers

  /** A row of the question table; `id` is assigned by the database on insert. */
  datatype Question = Question(id: int, question: string, answer: string, category: int, difficulty: int)

  /** The dictionary `Question.format()` returns. */
  datatype QuestionView = QuestionView(id: int, question: string, answer: string, category: int, difficulty: int)

  /** A row of the category table; `kind` is the column named `type`. */
  datatype Category = Category(id: int, kind: string)

  function Format(q: Question): (v: QuestionView)
    ensures v.id == q.id && v.question == q.question && v.answer == q.answer
    ensures v.category == q.category && v.difficulty == q.difficulty
  {
    QuestionView(q.id, q.question, q.answer, q.category, q.difficulty)
  }

  /** The four statuses the service answers with on failure. */
  datatype HttpError = BadRequest | NotFound | Unprocessable | InternalError {

    function Code(): int {
      match this
      case BadRequest => 400
      case NotFound => 404
      case Unprocessable => 422
      case InternalError => 500
    }

    function Message(): string {
      match this
      case BadRequest => "Bad Request"
      case NotFound => "Not Found"
      case Unprocessable => "Unprocessable"
      case InternalError => "Internal Server Error"
    }
  }

  /** The JSON body `{success, error, message}` an error handler returns. */
  datatype ErrorBody = ErrorBody(success: bool, error: int, message: string)

  /** The error handler registered for a status code, if any. */
  function HandlerFor(code: int): Option<HttpError> {
    if code == 400 then Some(BadRequest)
    else if code == 404 then Some(NotFound)
    else if code == 422 then Some(Unprocessable)
    else if code == 500 then Some(InternalError)
    else None
  }

  /** The body the handler for `e` sends: a failure whose code leads back to that same handler. */
  function ErrorBodyOf(e: HttpError): (b: ErrorBody)
    ensures !b.success
    ensures HandlerFor(b.error) == Some(e)
    ensures b.message == e.Message()
  {
    ErrorBody(false, e.Code(), e.Message())
  }

  /** What a handler answers: one success shape per endpoint, or a failure status. */
  datatype Response =
    | Failure(error: HttpError)
    | CategoryList(categories: map<int, string>)
    | QuestionPage(questions: seq<QuestionView>, totalQuestions: nat, categories: map<int, string>)
    | Deleted(deleted: int)
    | SearchResult(questions: seq<QuestionView>, totalQuestions: nat)
    | Created(created: int, questionCreated: string, questions: seq<QuestionView>, totalQuestions: nat)
    | CategoryQuestions(questions: seq<QuestionView>, totalQuestions: nat, currentCategory: string)
    | QuizQuestion(question: Option<QuestionView>)

  /** The ids of a table are pairwise distinct, as a primary key guarantees. */
  ghost predicate UniqueQuestionIds(rows: seq<Question>) {
    forall i, j :: 0 <= i < j < |rows| ==> rows[i].id != rows[j].id
  }

  ghost predicate UniqueCategoryIds(cats: seq<Category>) {
    forall i, j :: 0 <= i < j < |cats| ==> cats[i].id != cats[j].id
  }
}
