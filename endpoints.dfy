/** The logic of the request handlers of `create_app`, with the HTTP layer
    left out. Each handler is a method over the rows its queries return; its
    JSON body, its `abort(404)` or an exception it does not catch (which the
    framework answers with status 500) is a `Reply`. */
module Endpoints {
  import opened Store
  import opened Paging
  import opened Summaries
  import opened Search
  import opened Quiz

  /** Undecided: the draw oracle ran out before the quiz handler returned. */
  datatype Reply<B> = Ok(body: B) | NotFound | ServerError | Undecided

  /** Body of `GET /questions`. */
  datatype QuestionList<F> = QuestionList(questions: seq<F>, totalQuestions: nat,
                                          categories: map<Id, string>, currentCategory: map<Id, string>)

  /** Body of `POST /questions/search` and of `GET /categories/<id>/questions`. */
  datatype QuestionResults<F> = QuestionResults(questions: seq<F>, totalQuestions: nat, currentCategory: map<Id, string>)

  /** `retrieve_categories`: the category map, or not-found when the table is empty. */
  method RetrieveCategories(categories: seq<Category>) returns (reply: Reply<map<Id, string>>)
    ensures reply.Ok? || reply.NotFound?
    ensures reply.NotFound? <==> |categories| == 0
    ensures reply.Ok? ==> IsCategoryMap(reply.body, categories)
  {
    var catlist := BuildCategoryMap(categories);
    if |categories| == 0 {
      return NotFound;
    }
    return Ok(catlist);
  }

  /** `retrieve_questions`, over the questions table `table` (ordered by id).
      The current-category map covers the whole table, not only the page, and
      it is built before the empty-page test, so a dangling category id turns
      even a request for an empty page into a server error. */
  method RetrieveQuestions<F>(table: seq<Question>, categories: seq<Category>, pageArg: Option<int>,
                              format: Question -> F)
    returns (reply: Reply<QuestionList<F>>)
    ensures !reply.Undecided?
    ensures reply.ServerError? <==> exists q :: q in table && !Resolves(categories, q.category)
    ensures reply.NotFound? <==> (forall q :: q in table ==> Resolves(categories, q.category))
                                 && |PaginateQuestions(table, RequestedPage(pageArg), format)| == 0
    ensures reply.Ok? ==>
              && reply.body.questions == PaginateQuestions(table, RequestedPage(pageArg), format)
              && |reply.body.questions| > 0
              && reply.body.totalQuestions == |table|
              && IsCategoryMap(reply.body.categories, categories)
              && IsCurrentSummary(reply.body.currentCategory, table, categories)
    ensures reply.Ok? && UniqueIds(categories) ==>
              forall id :: id in reply.body.currentCategory ==>
                id in reply.body.categories && reply.body.currentCategory[id] == reply.body.categories[id]
  {
    var current := PaginateQuestions(table, RequestedPage(pageArg), format);
    var catlist := BuildCategoryMap(categories);
    var currcatlist := BuildCurrentCategories(table, categories);
    if currcatlist.Dangling? {
      return ServerError;
    }
    if |current| == 0 {
      return NotFound;
    }
    if UniqueIds(categories) {
      CurrentAgreesWithCategoryMap(currcatlist.summary, table, catlist, categories);
    }
    return Ok(QuestionList(current, |table|, catlist, currcatlist.summary));
  }

  /** `search_question`: every question whose text the database matches
      against the pattern, with their count and the categories they use. An
      empty result is still a success. */
  method SearchQuestions<F>(table: seq<Question>, categories: seq<Category>, searchTerm: Option<string>,
                            ilike: (string, string) -> bool, format: Question -> F)
    returns (reply: Reply<QuestionResults<F>>)
    ensures reply.Ok? || reply.ServerError?
    ensures reply.ServerError? <==>
              exists q :: q in SearchHits(table, SearchPattern(searchTerm), ilike) && !Resolves(categories, q.category)
    ensures reply.Ok? ==>
              && reply.body.questions == FormatAll(SearchHits(table, SearchPattern(searchTerm), ilike), format)
              && reply.body.totalQuestions == |reply.body.questions|
              && IsCurrentSummary(reply.body.currentCategory, SearchHits(table, SearchPattern(searchTerm), ilike), categories)
    ensures reply.Ok? ==> forall i :: 0 <= i < |reply.body.questions| ==>
              exists q :: q in table && ilike(q.question, SearchPattern(searchTerm)) && reply.body.questions[i] == format(q)
  {
    var exp := SearchPattern(searchTerm);
    var results := SearchHits(table, exp, ilike);
    var questions := FormatAll(results, format);
    var catlist := BuildCurrentCategories(results, categories);
    if catlist.Dangling? {
      return ServerError;
    }
    forall i | 0 <= i < |questions|
      ensures exists q :: q in table && ilike(q.question, exp) && questions[i] == format(q)
    {
      assert results[i] in results;
    }
    return Ok(QuestionResults(questions, |questions|, catlist.summary));
  }

  /** `get_question_by_Category`: a page of the category's questions; not
      found when that page is empty, which includes an unknown category. The
      category row is looked up only after that test and is dereferenced
      without a `None` check. */
  method QuestionsByCategory<F>(table: seq<Question>, categories: seq<Category>, catId: Id, pageArg: Option<int>,
                                format: Question -> F)
    returns (reply: Reply<QuestionResults<F>>)
    ensures !reply.Undecided?
    ensures reply.NotFound? <==> |PaginateQuestions(QuestionsInCategory(table, catId), RequestedPage(pageArg), format)| == 0
    ensures reply.ServerError? <==>
              |PaginateQuestions(QuestionsInCategory(table, catId), RequestedPage(pageArg), format)| > 0
              && !Resolves(categories, catId)
    ensures reply.Ok? ==>
              && reply.body.questions == PaginateQuestions(QuestionsInCategory(table, catId), RequestedPage(pageArg), format)
              && reply.body.totalQuestions == |QuestionsInCategory(table, catId)|
              && reply.body.currentCategory == map[catId := FirstWithId(categories, catId).value.kind]
    ensures reply.Ok? ==> forall i :: 0 <= i < |reply.body.questions| ==>
              exists q :: q in table && q.category == catId && reply.body.questions[i] == format(q)
  {
    var questions := QuestionsInCategory(table, catId);
    var current := PaginateQuestions(questions, RequestedPage(pageArg), format);
    if |current| == 0 {
      return NotFound;
    }
    var category := FirstWithId(categories, catId);
    if category.None? {
      return ServerError;
    }
    forall i | 0 <= i < |current|
      ensures exists q :: q in table && q.category == catId && current[i] == format(q)
    {
      ghost var lo :| IsFormattedRun(current, questions, format, lo);
      assert questions[lo + i] in questions;
    }
    return Ok(QuestionResults(current, |questions|, map[category.value.id := category.value.kind]));
  }

  /** `quizzes`: one question of the pool that was not served before, `None`
      when the picker gives up, a server error when the pool is empty.
      `previousQuestions` is `body.get('previous_questions')`: `None` when the
      field is missing. Then the first `randint` still runs (and raises on an
      empty pool), and the test `question['id'] in None` raises next. */
  method Quizzes<F>(table: seq<Question>, catid: Id, previousQuestions: Option<seq<Id>>, draws: seq<nat>,
                    format: Question -> F, idOf: F -> Id)
    returns (reply: Reply<Option<F>>)
    requires DrawsInRange(draws, |QuizPool(table, catid)|)
    ensures reply.ServerError? <==> |QuizPool(table, catid)| == 0 || (previousQuestions.None? && 0 < |draws|)
    ensures reply.NotFound? == false
    ensures previousQuestions.None? ==> (reply.Undecided? <==> 0 < |QuizPool(table, catid)| && |draws| == 0)
    ensures previousQuestions.None? ==> !reply.Ok?
    ensures previousQuestions.Some? ==>
              (reply.Undecided? <==>
                 PickOutcome(FormatAll(QuizPool(table, catid), format), idOf, previousQuestions.value, draws).OutOfDraws?)
    ensures reply.Ok? && reply.body.Some? ==>
              previousQuestions.Some? && idOf(reply.body.value) !in previousQuestions.value
              && exists q :: q in QuizPool(table, catid) && reply.body.value == format(q)
    ensures reply.Ok? && reply.body.Some? && catid != AllCategories ==>
              exists q :: q in table && q.category == catid && reply.body.value == format(q)
    ensures reply.Ok? && reply.body.None? ==>
              previousQuestions.Some? && |previousQuestions.value| == |QuizPool(table, catid)|
  {
    var pool := QuizPool(table, catid);
    var questions := FormatAll(pool, format);
    if previousQuestions.None? {
      if |questions| == 0 {
        return ServerError;
      }
      if |draws| == 0 {
        return Undecided;
      }
      return ServerError;
    }
    var pick := GetRandomQuestion(questions, idOf, previousQuestions.value, draws);
    match pick
    case Picked(question) =>
      ghost var k :| 0 <= k < |draws| && question == questions[draws[k]];
      assert pool[draws[k]] in pool;
      reply := Ok(Some(question));
    case Exhausted =>
      reply := Ok(None);
    case RandintRaised =>
      reply := ServerError;
    case OutOfDraws =>
      reply := Undecided;
  }
}
