/**
 * The decision logic of the seven request handlers of `create_app`: what each answers, given
 * the request's data and the contents of the two tables. Read-only handlers take the tables'
 * rows as values; the two that write take the store.
 */
module Handlers {
  import opened Wrappers
  import opened Seqs
  import opened Json
  import opened Trivia
  import opened Pagination
  import opened Categories
  import opened Quiz
  import opened QuestionStore

  /** GET /categories: every category listed under its id, 404 when there is none. */
  method GetCategories(cats: seq<Category>) returns (resp: Response)
    ensures resp == Failure(NotFound) <==> cats == []
    ensures resp.Failure? || resp.CategoryList?
    ensures resp.CategoryList? ==> resp.categories == CategoryMapOf(cats)
    ensures cats != [] ==> resp == CategoryList(CategoryMapOf(cats))
  {
    var categories := BuildCategoryMap(cats);
    EmptyMapIffNoCategories(cats);
    if |categories| == 0 {
      resp := Failure(NotFound);
    } else {
      resp := CategoryList(categories);
    }
  }

  /**
   * GET /questions?page=N: the page, the size of the whole table and the category dictionary;
   * 404 when the page is empty, so a page past the end is not an empty success.
   */
  method GetQuestions(rows: seq<Question>, cats: seq<Category>, pageArg: Option<int>) returns (resp: Response)
    ensures var page := Paginate(rows, PageOf(pageArg));
      && (resp == Failure(NotFound) <==> page == [])
      && (page != [] ==> resp == QuestionPage(page, |rows|, CategoryMapOf(cats)))
    ensures PageOf(pageArg) >= 1 ==> (resp.Failure? <==> |rows| <= (PageOf(pageArg) - 1) * QuestionsPerPage)
  {
    var totalQuestions := |rows|;
    var current := Paginate(rows, PageOf(pageArg));
    var categories := BuildCategoryMap(cats);
    if |current| == 0 {
      resp := Failure(NotFound);
    } else {
      resp := QuestionPage(current, totalQuestions, categories);
    }
  }

  /** POST /questions answers in search mode exactly when `searchTerm` is truthy. */
  predicate SearchMode(body: map<string, Json>)
    ensures SearchMode(body) <==> Get(body, "searchTerm").Some? && Truthy(Get(body, "searchTerm").value)
  {
    "searchTerm" in body && Truthy(body["searchTerm"])
  }

  /** The rows whose question text the database's `ilike '%term%'` accepts, `matches` standing for that test. */
  function Matching(rows: seq<Question>, matches: string -> bool): (r: seq<Question>)
    ensures forall q :: q in r <==> q in rows && matches(q.question)
    ensures |r| <= |rows|
  {
    Filter(rows, (q: Question) => matches(q.question))
  }

  /**
   * Search mode: 404 when no question matches; otherwise a page of the matches and, as
   * `total_questions`, the size of the whole table rather than the number of matches.
   */
  function Search(rows: seq<Question>, pageArg: Option<int>, matches: string -> bool): (r: Response)
    ensures r == Failure(NotFound) <==> forall q :: q in rows ==> !matches(q.question)
    ensures r.Failure? || r.SearchResult?
    ensures r.SearchResult? ==> r.totalQuestions == |rows|
    ensures r.SearchResult? ==> forall v :: v in r.questions ==> exists q :: q in rows && matches(q.question) && v == Format(q)
    ensures r.SearchResult? && PageOf(pageArg) == 1 ==> |r.questions| == Min(QuestionsPerPage, |Matching(rows, matches)|)
    ensures r.Failure? ==> r == Failure(NotFound)
    ensures (exists q :: q in rows && matches(q.question)) ==>
      r == SearchResult(Paginate(Matching(rows, matches), PageOf(pageArg)), |rows|)
  {
    var selection := Matching(rows, matches);
    if |selection| == 0 then
      Failure(NotFound)
    else
      assert selection[0] in selection;
      SearchResult(Paginate(selection, PageOf(pageArg)), |rows|)
  }

  /** The value of `key` is present and truthy, so `not item` is false for it. */
  predicate FieldGiven(body: map<string, Json>, key: string) {
    key in body && Truthy(body[key])
  }

  /** `any(not item for item in [...])` is false: each of the four fields is present and truthy. */
  predicate AllFieldsGiven(body: map<string, Json>)
    ensures AllFieldsGiven(body) <==>
      forall key :: key in ["question", "answer", "difficulty", "category"] ==>
        Get(body, key).Some? && Truthy(Get(body, key).value)
  {
    var fields := ["question", "answer", "difficulty", "category"];
    assert forall key :: key in fields ==> key == fields[0] || key == fields[1] || key == fields[2] || key == fields[3];
    assert fields[0] in fields && fields[1] in fields && fields[2] in fields && fields[3] in fields;
    FieldGiven(body, "question") && FieldGiven(body, "answer")
    && FieldGiven(body, "difficulty") && FieldGiven(body, "category")
  }

  /** The column values of a new question. */
  datatype NewQuestion = NewQuestion(question: string, answer: string, difficulty: int, category: int)

  /** The values the insert binds; `None` when the database rejects one and `insert()` raises. */
  function ColumnValues(body: map<string, Json>): (r: Option<NewQuestion>)
    requires AllFieldsGiven(body)
    ensures r.Some? ==> body["question"] == JStr(r.value.question) && body["answer"] == JStr(r.value.answer)
    ensures r.Some? ==> ToInt(body["difficulty"]) == Some(r.value.difficulty)
    ensures r.Some? ==> ToInt(body["category"]) == Some(r.value.category)
    ensures r.Some? <==> (ToText(body["question"]).Some? && ToText(body["answer"]).Some?
                          && ToInt(body["difficulty"]).Some? && ToInt(body["category"]).Some?)
  {
    var question := ToText(body["question"]);
    var answer := ToText(body["answer"]);
    var difficulty := ToInt(body["difficulty"]);
    var category := ToInt(body["category"]);
    if question.Some? && answer.Some? && difficulty.Some? && category.Some? then
      Some(NewQuestion(question.value, answer.value, difficulty.value, category.value))
    else None
  }

  /**
   * POST /questions. Search mode leaves the table alone. Create mode answers 422 and leaves the
   * table alone when a field is falsy or rejected; otherwise the table gains exactly one row under
   * a fresh id, reported as `created`, and the answer lists the page of the new table.
   */
  method PostQuestion(store: Store, body: map<string, Json>, pageArg: Option<int>, matches: string -> bool)
    returns (resp: Response)
    requires store.Valid()
    modifies store
    ensures store.Valid()
    ensures SearchMode(body) ==> resp == Search(old(store.rows), pageArg, matches) && unchanged(store)
    ensures !SearchMode(body) && !AllFieldsGiven(body) ==> resp == Failure(Unprocessable) && unchanged(store)
    ensures !SearchMode(body) && AllFieldsGiven(body) && ColumnValues(body).None? ==>
      resp == Failure(Unprocessable) && unchanged(store)
    ensures !SearchMode(body) && AllFieldsGiven(body) && ColumnValues(body).Some? ==>
      var n := ColumnValues(body).value;
      var q := Question(old(store.nextId), n.question, n.answer, n.category, n.difficulty);
      && q.id > 0
      && q.id !in old(store.Table())
      && store.rows == old(store.rows) + [q]
      && store.Table() == old(store.Table())[q.id := q]
      && resp == Created(q.id, n.question, Paginate(store.rows, PageOf(pageArg)), |store.rows|)
  {
    if SearchMode(body) {
      resp := Search(store.rows, pageArg, matches);
    } else if !AllFieldsGiven(body) {
      resp := Failure(Unprocessable);
    } else {
      var values := ColumnValues(body);
      if values.None? {
        resp := Failure(Unprocessable);
      } else {
        var n := values.value;
        var q := store.Insert(n.question, n.answer, n.category, n.difficulty);
        resp := Created(q.id, q.question, Paginate(store.rows, PageOf(pageArg)), |store.rows|);
      }
    }
  }

  /**
   * DELETE /questions/<id>: removes exactly the question with that id. For an id no question has,
   * the `abort(404)` is raised inside the `try` and its bare `except` answers 422 instead.
   */
  method DeleteQuestion(store: Store, id: nat) returns (resp: Response)
    requires store.Valid()
    modifies store
    ensures store.Valid()
    ensures store.nextId == old(store.nextId)
    ensures id in old(store.Table()) ==> resp == Deleted(id) && store.Table() == old(store.Table()) - {id}
    ensures id !in old(store.Table()) ==> resp == Failure(Unprocessable) && unchanged(store)
  {
    var found := FindQuestion(store.rows, id);
    if found.None? {
      resp := Failure(Unprocessable);
    } else {
      store.Delete(found.value);
      resp := Deleted(id);
    }
  }

  /**
   * GET /categories/<id>/questions: 400 exactly when no category has the id; otherwise a page of
   * the category's questions (an empty page is still a success), the size of the whole table and
   * the category's type.
   */
  function GetQuestionsByCategory(rows: seq<Question>, cats: seq<Category>, id: nat, pageArg: Option<int>): (r: Response)
    ensures r == Failure(BadRequest) <==> forall c :: c in cats ==> c.id != id
    ensures r.Failure? || r.CategoryQuestions?
    ensures r.CategoryQuestions? ==> r.totalQuestions == |rows|
    ensures r.CategoryQuestions? ==> exists c :: c in cats && c.id == id && r.currentCategory == c.kind
    ensures r.CategoryQuestions? ==> forall v :: v in r.questions ==> exists q :: q in rows && q.category == id && v == Format(q)
    ensures FindCategory(cats, id).Some? ==>
      r == CategoryQuestions(Paginate(Candidates(rows, InCategory(id)), PageOf(pageArg)), |rows|, FindCategory(cats, id).value.kind)
  {
    match FindCategory(cats, id)
    case None => Failure(BadRequest)
    case Some(c) => CategoryQuestions(Paginate(Candidates(rows, InCategory(c.id)), PageOf(pageArg)), |rows|, c.kind)
  }

  /** The ids sent and the selector, when the quiz body holds both in a form the handler can read. */
  function QuizInputs(body: map<string, Json>): (r: Option<(seq<Json>, Selector)>)
    ensures r.Some? ==> "previous_questions" in body && body["previous_questions"] == JArray(r.value.0)
    ensures r.Some? ==> "quiz_category" in body && QuizSelector(body["quiz_category"]) == Some(r.value.1)
    ensures r.None? && Get(body, "previous_questions").Some? && Get(body, "quiz_category").Some? ==>
      !body["previous_questions"].JArray? || QuizSelector(body["quiz_category"]).None?
  {
    var previous := Get(body, "previous_questions");
    var category := Get(body, "quiz_category");
    if previous.Some? && previous.value.JArray? && category.Some? && QuizSelector(category.value).Some? then
      Some((previous.value.items, QuizSelector(category.value).value))
    else None
  }

  /**
   * POST /quizzes: 400 exactly when a field is missing; success without a question when as many
   * ids were sent as there are candidates; success with an unseen candidate of the selected
   * category otherwise, or 500 when `random.choice` gets an empty list.
   */
  function PlayQuiz(rows: seq<Question>, body: map<string, Json>, pick: nat): (r: Response)
    ensures r == Failure(BadRequest) <==> Get(body, "previous_questions").None? || Get(body, "quiz_category").None?
    ensures r.Failure? || r.QuizQuestion?
    ensures r.Failure? && r != Failure(BadRequest) ==> r == Failure(InternalError)
    ensures Get(body, "previous_questions").Some? && Get(body, "quiz_category").Some? && QuizInputs(body).None? ==>
      r == Failure(InternalError)
    ensures QuizInputs(body).Some? ==>
      var (previous, sel) := QuizInputs(body).value;
      var candidates := Candidates(rows, sel);
      && (r == QuizQuestion(None) <==> |previous| == |candidates|)
      && (r == Failure(InternalError) <==>
           |previous| != |candidates| && forall q :: q in candidates ==> Seen(q.id, previous))
      && (r.QuizQuestion? && r.question.Some? ==>
           exists q :: q in rows && InSelection(q, sel) && !Seen(q.id, previous) && r.question.value == Format(q))
  {
    if Get(body, "previous_questions").None? || Get(body, "quiz_category").None? then Failure(BadRequest)
    else if QuizInputs(body).None? then Failure(InternalError)
    else
      var (previous, sel) := QuizInputs(body).value;
      match PickQuestion(Candidates(rows, sel), previous, pick)
      case Exhausted => QuizQuestion(None)
      case Chosen(q) => QuizQuestion(Some(Format(q)))
      case EmptyChoice => Failure(InternalError)
  }

  /**
   * The quiz of the test suite: ids 1 and 2 already seen, category id sent as the string "1", and
   * at least three questions in category 1. The answer is a category-1 question other than 1 and 2.
   */
  lemma QuizInCategoryOne(rows: seq<Question>, pick: nat)
    requires UniqueQuestionIds(rows)
    requires |Candidates(rows, InCategory(1))| >= 3
    ensures var body := map["previous_questions" := JArray([JNum(1), JNum(2)]),
                             "quiz_category" := JObject(map["type" := JStr("Science"), "id" := JStr("1")])];
      var r := PlayQuiz(rows, body, pick);
      r.QuizQuestion? && r.question.Some? && r.question.value.category == 1
      && r.question.value.id != 1 && r.question.value.id != 2
  {
    var body := map["previous_questions" := JArray([JNum(1), JNum(2)]),
                    "quiz_category" := JObject(map["type" := JStr("Science"), "id" := JStr("1")])];
    assert ParseInt("1") == Some(1) by {
      assert AllDigits("1");
      assert DigitsValue("1") == 1 by {
        assert "1"[..0] == "";
      }
    }
    assert QuizInputs(body) == Some(([JNum(1), JNum(2)], InCategory(1)));
    var candidates := Candidates(rows, InCategory(1));
    FilterKeepsUniqueIds(rows, (q: Question) => InSelection(q, InCategory(1)));
    MoreCandidatesThanSentGivesQuestion(candidates, [JNum(1), JNum(2)], pick);
    var q := PickQuestion(candidates, [JNum(1), JNum(2)], pick).q;
    assert !Seen(q.id, [JNum(1), JNum(2)]);
    assert IntEquals(1, [JNum(1), JNum(2)][0]) && IntEquals(2, [JNum(1), JNum(2)][1]);
  }

  /** A quiz body without `previous_questions` or `quiz_category` answers 400, whatever the tables hold. */
  lemma QuizWithoutFieldsIsBadRequest(rows: seq<Question>, pick: nat)
    ensures PlayQuiz(rows, map["you" := JStr("need"), "to be" := JStr("400")], pick) == Failure(BadRequest)
  {
  }
}
