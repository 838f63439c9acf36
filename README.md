# Trivia quiz service: the selection and pagination logic

The trivia backend is a Flask application that stores quiz questions in
categories. It lists them ten to a page, searches them by a text pattern and
plays quizzes that hand out one random question at a time that has not been
served before. All of its logic sits in the helpers and loops of the request
handlers in `backend/flaskr/__init__.py`. This project models that logic in
Dafny and proves what it does:

- `Store`: the rows the handlers read (`Question`, `Category`) and two query
  shapes. `FirstWithId` is `Category.query.filter(Category.id == x).first()`.
  `Filter` is `filter(...).all()`, which keeps table order.
- `Paging`: `paginate_question`. It is a Python slice `[start:end]` of the
  formatted selection, with `start = (page-1)*10`. Python's slice rules,
  negative bounds included, are written out.
- `Summaries`: the two dictionary-filling loops, written as methods with loops.
  `catlist` maps every category id to its `type`. `currcatlist` looks up the
  category of every question.
- `Search`: the `ilike` pattern built from the optional search term.
- `Quiz`: the quiz pool, and the rejection-sampling loop of
  `get_rondom_question`. That loop is a method over a draw oracle (the values
  `random.randint` returns, in order). `PickOutcome` specifies the method
  draw by draw.
- `Endpoints`: each handler's logic without the HTTP layer. A handler ends in
  a `Reply`: its JSON body, `abort(404)`, or an uncaught exception
  (`ServerError`, which the framework answers with status 500).

What the model shows about the code:

- A page of number 1 or more holds exactly the formatted questions at
  positions `(page-1)*10 .. min(page*10, n)-1`. It is empty exactly when the
  page starts past the end.
- Page 0 is always empty. A negative page is not rejected: it reads a window
  counted from the end of the list.
- The category lookups have no `None` check. A question whose category has no
  row makes the "current category" loop raise, and the handler fails. In
  `retrieve_questions` this happens before the empty-page test, so it wins
  over not-found.
- An absent search term gives the pattern `''`. A present term `t` gives
  `'%' + t + '%'`, so an empty but present term gives `'%%'`.
- The quiz loop's exhaustion test compares `len(previousQuestions)` with the
  pool size. When every pool id has been served but the lengths differ, no
  sequence of draws ends the loop.
- With equal lengths and a seen first draw, the loop returns `None` after one
  redraw, even if that redraw hit an unseen question.
- In a well-formed session the length test means "everything served". A
  well-formed session has distinct pool ids, and a `previousQuestions` with
  no duplicate and no foreign id.

## Model

| member | source | states |
|---|---|---|
| `Store.FirstWithId` | backend/flaskr/__init__.py:73 | None exactly when no row has the id; otherwise the first row with that id |
| `Store.Filter` | backend/flaskr/__init__.py:229 | the result holds exactly the rows satisfying the predicate, each as often as in the table |
| `Store.FilterAppend` | backend/flaskr/__init__.py:229 | filtering distributes over concatenation, so query order is kept |
| `Store.QuestionsInCategory` | backend/flaskr/__init__.py:190 | exactly the questions whose category column equals the id |
| `Paging.Slice` | backend/flaskr/__init__.py:17 | a Python slice is the run of the list from the normalised start bound up to the normalised end bound, and empty when the end bound is not past the start bound |
| `Paging.SliceNonNegative` | backend/flaskr/__init__.py:17 | with non-negative bounds the slice is `s[start..min(end, n)]`, or empty when `start >= end` or `start >= n` |
| `Paging.SliceNegativeBounds` | backend/flaskr/__init__.py:17 | negative bounds no further back than `-n` mean the bounds `n` positions later |
| `Paging.SliceClampsFarNegativeStart` | backend/flaskr/__init__.py:17 | a start bound before `-n` is read as 0 |
| `Paging.RequestedPage` | backend/flaskr/__init__.py:12 | an absent or non-integer `page` argument gives page 1; an integer argument is used as given |
| `Paging.FormatAll` | backend/flaskr/__init__.py:16 | one formatted question per selected question, in selection order |
| `Paging.PaginateQuestions` | backend/flaskr/__init__.py:11-18 | for page >= 1: at most 10 items; empty iff (page-1)*10 >= n; exactly the formatted items at positions (page-1)*10 .. min(page*10,n)-1 in order; for any page, a contiguous run of the formatted selection |
| `Paging.PageZeroIsEmpty` | backend/flaskr/__init__.py:12-17 | an explicit page 0 yields the empty page |
| `Paging.NegativePageCountsFromEnd` | backend/flaskr/__init__.py:12-17 | a negative page p yields ten items starting n+(p-1)*10, counted from the end |
| `Paging.PagesTile` | backend/flaskr/__init__.py:11-18 | pages 1..k concatenated are the first min(10k, n) formatted items: no gap, no overlap |
| `Summaries.BuildCategoryMap` | backend/flaskr/__init__.py:42-44 | key set is the set of category ids; each key maps to the type of the last row with that id |
| `Summaries.BuildCurrentCategories` | backend/flaskr/__init__.py:72-74 | fails, naming the first unresolved category, iff some question's category has no row; otherwise key set is the questions' category ids, each mapped to the type of the row `.first()` finds |
| `Summaries.CurrentAgreesWithCategoryMap` | backend/flaskr/__init__.py:69-74 | with unique category ids, the current-category map agrees with the full map on every key it has |
| `Search.SearchPattern` | backend/flaskr/__init__.py:157-161 | empty pattern iff the term is absent; otherwise the term between two `%` wildcards |
| `Search.SearchHits` | backend/flaskr/__init__.py:162 | exactly the questions whose text the database matches against the pattern |
| `Search.PatternRoundTrip` | backend/flaskr/__init__.py:157-161 | the term, absent or present, is recovered from the pattern |
| `Search.PatternInjective` | backend/flaskr/__init__.py:157-161 | different terms (absent against empty included) give different patterns |
| `Search.AbsentAndEmptyTermsDiffer` | backend/flaskr/__init__.py:157-161 | absent term gives `''`; empty term gives `'%%'` |
| `Quiz.QuizPool` | backend/flaskr/__init__.py:225-229 | category 0 gives the whole table; any other id gives exactly its questions, with their multiplicities |
| `Quiz.FirstUnseen` | backend/flaskr/__init__.py:242-244 | the first draw from a position on that hits an unseen question; all draws before it hit seen ones |
| `Quiz.PickOutcome` | backend/flaskr/__init__.py:238-250 | raises iff the pool is empty; a picked question is one of the drawn pool questions and its id is unseen; `None` only with equal lengths after two draws |
| `Quiz.GetRandomQuestion` | backend/flaskr/__init__.py:238-250 | the loop's outcome equals `PickOutcome` for every pool, history and draw sequence |
| `Quiz.NeverEndsWhenAllSeenButLengthsDiffer` | backend/flaskr/__init__.py:242-248 | all pool ids served and lengths differ: every finite draw sequence runs out, so the loop does not end |
| `Quiz.ExhaustedDiscardsUnseenRedraw` | backend/flaskr/__init__.py:242-248 | pool ids [1,2], history [1,1], draws [0,1]: `None`, although the redraw hit unseen id 2 |
| `Quiz.LengthTestSoundForWellFormedSession` | backend/flaskr/__init__.py:246 | distinct pool ids and a history of distinct pool ids: equal lengths iff every pool id is served |
| `Quiz.WellFormedSessionPicksOrExhausts` | backend/flaskr/__init__.py:239-250 | well-formed session: everything served gives `None` after two draws; otherwise `None` never comes |
| `Endpoints.RetrieveCategories` | backend/flaskr/__init__.py:40-52 | not found iff there is no category; otherwise the category map |
| `Endpoints.RetrieveQuestions` | backend/flaskr/__init__.py:63-84 | server error iff some question's category is dangling; otherwise not found iff the page is empty; otherwise the page, total = table size, both maps, agreeing when ids are unique |
| `Endpoints.SearchQuestions` | backend/flaskr/__init__.py:156-175 | server error iff a hit has a dangling category; otherwise the formatted hits, totalQuestions equal to their number, each one a matching table question |
| `Endpoints.QuestionsByCategory` | backend/flaskr/__init__.py:189-203 | not found iff the page of the category's questions is empty; server error iff it is not empty and the category row is missing; otherwise the page of that category's questions and a one-entry map |
| `Endpoints.Quizzes` | backend/flaskr/__init__.py:220-236 | server error iff the pool is empty, or `previous_questions` is missing and a first draw was made; a returned question is a formatted pool question of the requested category, not served before; `None` only when the lengths are equal |

## Left out

- HTTP routing, `cross_origin` and the `after_request` CORS headers: transport only.
- `jsonify` payload shapes, the `success` flag and status codes: transport
  only. A reply is modelled as `Ok`, `NotFound` or `ServerError`.
- The error handlers at lines 262-284 only format responses. The 422 handler
  is nested inside `not_found` and never registered.
- `create_question` and `delete_question`: a database insert or delete inside
  `try`/`except`, with no logic of their own.
- `question.format()`: its body is in `models.py`, which is not part of this
  model. It is the parameter `format`. In the quiz the formatted question's
  `['id']` is the parameter `idOf`.
- SQL matching: `ilike` is the parameter `ilike`, and `LIKE` wildcard
  semantics are not modelled.
- Query ordering (`order_by`) and the order of an unordered query: a table is
  the sequence of rows the query returns. The `totalQuestions` query of
  `retrieve_questions` is the same table.
- `random.randint`: replaced by the draw oracle. Each draw is in range, as
  `randint` promises.
- `OutOfDraws`, and the endpoint reply `Undecided`, mean "the oracle ran
  out". The real loop would keep drawing.
- The uniformity of the random choice is a probabilistic claim and is not
  modelled.
- Dictionary order: the summaries are Dafny maps. The JSON key order and
  the first-insertion order of Python dicts are not represented.
- Ids are integers. A string id in the request is not modelled: `quiz_category`
  `"1"`, or the URL's `cat_id`, compared with an integer column.
- A request without a JSON body, and a `quizzes` request without
  `quiz_category`, are not modelled. `body.get` on `None` (lines 159 and 222)
  or `None['id']` (line 224) raises before the modelled logic runs. A missing
  `previous_questions` is modelled: `body.get` gives `None`, and the handler
  fails later, at `randint` for an empty pool (line 239) or at the
  `in None` test (line 242).
- Request values of the wrong JSON type are not modelled: `searchTerm` is a
  string or absent, `previous_questions` a list of integer ids. A non-string
  `searchTerm` makes `'%' + searchTerm` raise a `TypeError` at line 161.
- `print` calls.
