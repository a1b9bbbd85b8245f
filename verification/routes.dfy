/**
 * The route bodies of the Flask application, as pure functions of the store
 * and of the already-parsed request: each yields a success payload or one of
 * the three error codes the application aborts with. The routes that write
 * return the store afterwards; on an error it is the store they were given.
 */
module Routes {
  import opened Wrappers
  import opened Records
  import Pagination
  import Search
  import Quiz

  datatype ErrorCode = BadRequest | NotFound | Unprocessable

  /** The JSON body `{success, error, message}` sent with an error status. */
  datatype ErrorBody = ErrorBody(success: bool, error: int, message: string)

  /** The HTTP status each error code aborts with. */
  function Status(e: ErrorCode): int
  {
    match e
    case BadRequest => 400
    case NotFound => 404
    case Unprocessable => 422
  }

  /** The three `@app.errorhandler` bodies. */
  function Handler(e: ErrorCode): (b: ErrorBody)
    ensures !b.success && b.error == Status(e)
    ensures b.message == match e
                         case BadRequest => "bad request"
                         case NotFound => "resource not found"
                         case Unprocessable => "unprocessable"
  {
    match e
    case BadRequest => ErrorBody(false, 400, "bad request")
    case NotFound => ErrorBody(false, 404, "resource not found")
    case Unprocessable => ErrorBody(false, 422, "unprocessable")
  }

  /** Which registered handler, if any, answers `abort(status)`. */
  function HandlerFor(status: int): (r: Option<ErrorCode>)
    ensures r.Some? <==> status == 400 || status == 404 || status == 422
    ensures r.Some? ==> Status(r.value) == status
  {
    if status == 400 then Some(BadRequest)
    else if status == 404 then Some(NotFound)
    else if status == 422 then Some(Unprocessable)
    else None
  }

  /** Every error code reaches its own handler, whose body repeats the status. */
  lemma ErrorTableRoundTrip(e: ErrorCode)
    ensures HandlerFor(Status(e)) == Some(e)
    ensures Handler(e).error == Status(e)
  {
  }

  /** The `current_category` that the listing and search routes always send. */
  const PlaceholderCategory := "test"

  datatype QuestionListing = QuestionListing(
    questions: seq<Question>, totalQuestions: nat, categories: map<int, string>, currentCategory: string)

  datatype SearchResults = SearchResults(questions: seq<Question>, totalQuestions: nat, currentCategory: string)

  datatype CategoryQuestions = CategoryQuestions(questions: seq<Question>, totalQuestions: nat, currentCategory: string)

  datatype Creation = Creation(created: int, questions: seq<Question>, totalQuestions: nat)

  /** The store after a write route, and its response. */
  datatype Write<P> = Write(store: Store, response: Result<P, ErrorCode>)

  /** GET /categories */
  function GetCategories(s: Store): (r: Result<map<int, string>, ErrorCode>)
    ensures r.Failure? <==> |s.categories| == 0
    ensures r.Failure? ==> r.error == NotFound
    ensures r.Success? ==> r.value.Keys == CategoryIds(s.categories)
    ensures r.Success? ==> r.value == CategoryMap(s.categories)
    ensures r.Success? && UniqueCategoryIds(s.categories) ==>
              forall c :: c in s.categories ==> r.value[c.id] == c.typeName
  {
    var m := CategoryMap(s.categories);
    assert |s.categories| > 0 ==> s.categories[0].id in m;
    assert UniqueCategoryIds(s.categories) ==> forall c :: c in s.categories ==> m[c.id] == c.typeName by {
      if UniqueCategoryIds(s.categories) {
        CategoryMapLabels(s.categories);
      }
    }
    if |m| == 0 then Failure(NotFound) else Success(m)
  }

  /** GET /questions?page=N */
  function GetQuestions(s: Store, page: int): (r: Result<QuestionListing, ErrorCode>)
    ensures r.Failure? <==> Pagination.Paginate(page, s.questions) == []
    ensures page >= 1 ==> (r.Failure? <==> (page - 1) * Pagination.QuestionsPerPage >= |s.questions|)
    ensures r.Failure? ==> r.error == BadRequest
    ensures r.Success? ==>
              && r.value.totalQuestions == |s.questions|
              && 1 <= |r.value.questions| <= Pagination.QuestionsPerPage
              && r.value.questions == Pagination.Paginate(page, s.questions)
              && r.value.currentCategory == PlaceholderCategory
              // the same dictionary as GET /categories: ids to the type of their last row
              && r.value.categories == CategoryMap(s.categories)
  {
    var current := Pagination.Paginate(page, s.questions);
    if |current| == 0 then Failure(BadRequest)
    else Success(QuestionListing(current, |s.questions|, CategoryMap(s.categories), PlaceholderCategory))
  }

  /**
   * DELETE /questions/<id>. A missing id aborts with 404 inside the `try`,
   * whose bare `except` turns it into 422.
   */
  function DeleteQuestion(s: Store, id: nat): (w: Write<int>)
    ensures w.response.Failure? <==> !HasQuestion(s.questions, id)
    ensures w.response.Failure? ==> w.response.error == Unprocessable && w.store == s
    ensures w.response.Success? ==>
              && w.response.value == id
              && w.store.categories == s.categories
              && |w.store.questions| == |s.questions| - 1
              && exists i :: 0 <= i < |s.questions| && s.questions[i].id == id &&
                   w.store.questions == s.questions[..i] + s.questions[i + 1..]
  {
    match FindQuestion(s.questions, id)
    case None => Write(s, Failure(Unprocessable))
    case Some(i) =>
      Write(Store(s.questions[..i] + s.questions[i + 1..], s.categories), Success(id))
  }

  /** Dropping row `i` of a table with unique keys leaves exactly the rows with other keys. */
  lemma RemoveRow(qs: seq<Question>, i: nat)
    requires i < |qs| && UniqueQuestionIds(qs)
    ensures UniqueQuestionIds(qs[..i] + qs[i + 1..])
    ensures forall q :: q in qs[..i] + qs[i + 1..] <==> q in qs && q.id != qs[i].id
  {
    var rest := qs[..i] + qs[i + 1..];
    assert forall j :: 0 <= j < |rest| ==> rest[j] == qs[if j < i then j else j + 1];
    forall q | q in qs && q.id != qs[i].id
      ensures q in rest
    {
      var j :| 0 <= j < |qs| && qs[j] == q;
      if j < i {
        assert rest[j] == q;
      } else {
        assert rest[j - 1] == q;
      }
    }
  }

  /** Deleting an existing question removes that record and nothing else, and the id is gone. */
  lemma DeleteRemovesExactlyThatQuestion(s: Store, id: nat)
    requires UniqueQuestionIds(s.questions)
    requires HasQuestion(s.questions, id)
    ensures DeleteQuestion(s, id).response == Success(id)
    ensures !HasQuestion(DeleteQuestion(s, id).store.questions, id)
    ensures UniqueQuestionIds(DeleteQuestion(s, id).store.questions)
    ensures forall q :: q in DeleteQuestion(s, id).store.questions <==> q in s.questions && q.id != id
  {
    var k := FindQuestion(s.questions, id).value;
    RemoveRow(s.questions, k);
    var rest := DeleteQuestion(s, id).store.questions;
    assert rest == s.questions[..k] + s.questions[k + 1..];
  }

  /** The JSON body of POST /questions; a field the client left out is `None`. */
  datatype NewQuestion = NewQuestion(
    question: Option<string>, answer: Option<string>, difficulty: Option<int>, category: Option<int>)

  predicate Complete(body: NewQuestion)
  {
    body.question.Some? && body.answer.Some? && body.difficulty.Some? && body.category.Some?
  }

  /**
   * POST /questions. `newId` is the key the database assigns to the inserted
   * row; a key already in use makes the insert fail, which the bare `except`
   * reports as 422. The category is not checked against the category table.
   */
  function PostQuestion(s: Store, body: NewQuestion, newId: int, page: int): (w: Write<Creation>)
    ensures w.response.Failure? <==> !Complete(body) || HasQuestion(s.questions, newId)
    ensures w.response.Failure? ==> w.response.error == Unprocessable && w.store == s
    ensures w.response.Success? ==>
              && w.store.categories == s.categories
              && |w.store.questions| == |s.questions| + 1
              && w.store.questions[..|s.questions|] == s.questions
              && w.store.questions[|s.questions|] ==
                   Question(newId, body.question.value, body.answer.value, body.difficulty.value, body.category.value)
              && w.response.value.created == newId
              && w.response.value.totalQuestions == |w.store.questions|
              && w.response.value.questions == Pagination.Paginate(page, w.store.questions)
  {
    if !Complete(body) then Write(s, Failure(Unprocessable))
    else if HasQuestion(s.questions, newId) then Write(s, Failure(Unprocessable))
    else
      var q := Question(newId, body.question.value, body.answer.value, body.difficulty.value, body.category.value);
      var qs := s.questions + [q];
      Write(Store(qs, s.categories), Success(Creation(newId, Pagination.Paginate(page, qs), |qs|)))
  }

  /** A created question is retrievable by its new id and carries exactly the submitted fields. */
  lemma CreatedQuestionIsRetrievable(s: Store, body: NewQuestion, newId: int, page: int)
    requires UniqueQuestionIds(s.questions)
    requires PostQuestion(s, body, newId, page).response.Success?
    ensures var qs := PostQuestion(s, body, newId, page).store.questions;
            && UniqueQuestionIds(qs)
            && FindQuestion(qs, newId) == Some(|s.questions|)
            && qs[|s.questions|] == Question(newId, body.question.value, body.answer.value,
                                             body.difficulty.value, body.category.value)
  {
    var qs := PostQuestion(s, body, newId, page).store.questions;
    assert qs == s.questions + [qs[|s.questions|]];
    assert forall j :: 0 <= j < |s.questions| ==> qs[j] == s.questions[j];
  }

  /** POST /questions/search */
  function SearchQuestions(s: Store, term: Option<string>, page: int): (r: Result<SearchResults, ErrorCode>)
    ensures r.Failure? <==> forall q :: q in s.questions ==> !Search.Ilike(Search.SearchPattern(term), q.question)
    ensures r.Failure? ==> r.error == NotFound
    ensures r.Success? ==>
              && r.value.totalQuestions == |Search.Matching(s.questions, term)|
              && r.value.questions == Pagination.Paginate(page, Search.Matching(s.questions, term))
              && r.value.currentCategory == PlaceholderCategory
              && forall q :: q in r.value.questions ==>
                   q in s.questions && Search.Ilike(Search.SearchPattern(term), q.question)
  {
    var results := Search.Matching(s.questions, term);
    if |results| == 0 then Failure(NotFound)
    else
      assert results[0] in results;
      Success(SearchResults(Pagination.Paginate(page, results), |results|, PlaceholderCategory))
  }

  /**
   * For a search term without `%`, `_` or backslash, the search succeeds exactly
   * when some question contains the term ignoring case, and counts exactly
   * those questions.
   */
  lemma SearchFindsSubstrings(s: Store, t: string, page: int)
    requires Search.IsLiteral(t)
    ensures SearchQuestions(s, Some(t), page).Success? <==>
              exists q :: q in s.questions && Search.ContainsIgnoringCase(q.question, t)
    ensures forall q :: q in Search.Matching(s.questions, Some(t)) <==>
              q in s.questions && Search.ContainsIgnoringCase(q.question, t)
  {
    forall q: Question
      ensures Search.Ilike(Search.SearchPattern(Some(t)), q.question) <==> Search.ContainsIgnoringCase(q.question, t)
    {
      Search.SearchIsSubstring(t, q.question);
    }
  }

  /** GET /categories/<id>/questions; an unknown category is a 400, not a 404. */
  function GetQuestionsByCategory(s: Store, id: nat, page: int): (r: Result<CategoryQuestions, ErrorCode>)
    ensures r.Failure? <==> !HasCategory(s.categories, id)
    ensures r.Failure? ==> r.error == BadRequest
    ensures r.Success? ==>
              && (forall q :: q in r.value.questions ==> q in s.questions && q.category == id)
              && r.value.totalQuestions == |InCategory(s.questions, id)|
              && r.value.questions == Pagination.Paginate(page, InCategory(s.questions, id))
              && exists c :: c in s.categories && c.id == id && r.value.currentCategory == c.typeName
    ensures r.Success? && UniqueCategoryIds(s.categories) ==>
              forall c :: c in s.categories && c.id == id ==> r.value.currentCategory == c.typeName
  {
    match FindCategory(s.categories, id)
    case None => Failure(BadRequest)
    case Some(c) =>
      var qs := InCategory(s.questions, c.id);
      Success(CategoryQuestions(Pagination.Paginate(page, qs), |qs|, c.typeName))
  }

  /**
   * POST /quizzes, with the selection guarded as `Quiz.NextQuestion` does:
   * `Success(None)` is the response without a `question` field.
   */
  method GetQuizQuestion(s: Store, previous: Option<seq<int>>, quizCategory: Option<int>)
    returns (r: Result<Option<Question>, ErrorCode>)
    ensures r.Failure? <==> previous.None? || quizCategory.None?
    ensures r.Failure? ==> r.error == BadRequest
    ensures r.Success? ==>
              (r.value.None? <==> !Quiz.HasUnseen(Quiz.Candidates(s.questions, quizCategory.value), previous.value))
    ensures r.Success? && r.value.Some? ==>
              && r.value.value in s.questions
              && r.value.value.id !in previous.value
              && (quizCategory.value != 0 ==> r.value.value.category == quizCategory.value)
  {
    if previous.None? || quizCategory.None? {
      return Failure(BadRequest);
    }
    var cands := Quiz.Candidates(s.questions, quizCategory.value);
    var next := Quiz.NextQuestion(cands, previous.value);
    r := Success(next);
  }
}
