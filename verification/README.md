# Trivia API backend — Dafny model

A model of the request-handling core of a Flask trivia-question service
(`backend/flaskr/__init__.py`). The service stores questions (`id`, `question`,
`answer`, `difficulty`, `category`) and categories (`id`, `type`) and exposes
routes to list categories, list questions ten per page, delete and create
questions, search question text, list the questions of one category, and serve
quiz questions that avoid ones already served.

The model replaces the database with an in-memory `Store`: two sequences of
records in query order. Each route becomes a pure function from the store and
the already-parsed request to a success payload or one of the three error codes
(400, 404, 422). The two writing routes also return the store afterwards.

Modules:

- `Wrappers` (`wrappers.dfy`): `Option` and `Result`.
- `Records` (`records.dfy`): the `Question`, `Category` and `Store` records. It also models the queries the routes issue: primary-key lookup, `filter_by(category=…)`, and the `{id: type}` dictionary.
- `Pagination` (`pagination.dfy`): `paginate_questions`, with Python's slice semantics.
- `Search` (`search.dfy`): the SQL `ILIKE '%term%'` filter used by the search route, as a pattern matcher.
- `Quiz` (`quiz.dfy`): next-question selection. It has two parts:
  - The rejection-sampling loop as written. The values `random.randrange` returns are passed in as a sequence of draws.
  - The selection the loop is meant to make, as a nondeterministic choice.
- `Routes` (`routes.dfy`): the seven route bodies and the error-handler table.

The category column `type` is called `typeName`, because `type` is a Dafny keyword.
`Question.format()` copies all five fields, so a formatted question is modelled as the `Question` record itself.

Four behaviours of the code are easy to miss, and the model follows the code in each:

- Deleting an unknown id answers 422, not 404. The `abort(404)` is raised inside a `try` whose bare `except` re-aborts with 422.
- Search uses `ILIKE`, so `%`, `_` and backslash in the search term act as wildcards or escapes. For a term without them, `Search.SearchIsSubstring` proves the filter is case-insensitive substring search. A request without `searchTerm` searches for the text `None`, because that is what Python's f-string makes of the missing value.
- A page number of 0 or below is not rejected by `paginate_questions`. Python's slicing counts negative bounds from the end of the list. Page 0 is always empty. A negative page selects a window counted back from the end of the list, so `GET /questions?page=-1` on 25 questions returns questions 6 to 15.
- The quiz route's selection is modelled guarded: no candidates, or every candidate already served, gives the response without a question. The as-written loop is modelled separately, and its defects are listed under Findings.

## Model

| member | source | states |
|---|---|---|
| Records.FindQuestion | backend/flaskr/__init__.py:85-87 | Primary-key lookup finds a row with the requested id, the first such row, and reports absence exactly when no row has that id |
| Records.FindCategory | backend/flaskr/__init__.py:153-156 | Category lookup returns a stored category with the requested id, and reports absence exactly when no category has it |
| Records.InCategory | backend/flaskr/__init__.py:159 | `filter_by(category=c)` keeps exactly the stored questions whose category is `c`, each as often as it is stored, so the result's length is that category's question count; unique ids stay unique |
| Records.FilterKeepsUniqueIds | backend/flaskr/__init__.py:159 | Filtering a table whose ids are unique yields rows whose ids are unique |
| Records.CategoryMap | backend/flaskr/__init__.py:48-50 | The dictionary's keys are exactly the category ids; each id maps to the type of the last row carrying it, since later assignments overwrite earlier ones |
| Records.CategoryMapLabels | backend/flaskr/__init__.py:47-50 | With unique category ids, every category's id maps to its own type |
| Pagination.Paginate | backend/flaskr/__init__.py:11-19 | A page has at most ten questions. Page p >= 1 holds exactly the questions at indices (p-1)*10 onwards, cut off at p*10 or the end of the list. It is empty exactly when it starts past the end. Page 0 is empty. A negative page counts back from the end of the list: it is empty when its window ends at or before the start, the first `|xs| + page*10` rows when its window straddles the start, and ten rows from index `|xs| + (page-1)*10` otherwise |
| Pagination.PagesFromIsSuffix | backend/flaskr/__init__.py:13-17 | Concatenating the pages from page p onwards yields the list from index (p-1)*10 on |
| Pagination.PagesCoverList | backend/flaskr/__init__.py:11-19 | The pages partition the list: reading pages 1, 2, ... in order reproduces it exactly, with nothing lost or repeated |
| Search.SearchPattern | backend/flaskr/__init__.py:135-138 | The pattern is the term wrapped in `%`; a missing term gives `%None%` |
| Search.LiteralThenPercent | backend/flaskr/__init__.py:138 | A wildcard-free term followed by `%` matches exactly the texts it prefixes, ignoring case |
| Search.LeadingPercent | backend/flaskr/__init__.py:138 | A leading `%` lets the rest of the pattern match starting at any position of the text |
| Search.SearchIsSubstring | backend/flaskr/__init__.py:138 | For a term without `%`, `_` or backslash, the ILIKE filter holds exactly when the question text contains the term ignoring case |
| Search.Matching | backend/flaskr/__init__.py:138 | The search selects exactly the stored questions whose text matches the pattern, each as often as it is stored |
| Quiz.Candidates | backend/flaskr/__init__.py:179-183 | Category id 0 selects every question; any other id selects exactly the questions of that category, each as often as it is stored, so the pool's length is the count the length test uses; a table with unique ids gives a pool with unique ids |
| Quiz.Retry | backend/flaskr/__init__.py:200-205 | Each iteration of the retry loop redraws and then, once the two lengths are equal, ends the quiz whatever was drawn; otherwise it serves the redraw if it is not in `previous_questions` and keeps drawing if it is. A served question is the first unseen draw, and the draws run out with the loop still looking exactly when every draw was seen and the lengths differ |
| Quiz.RejectionLoop | backend/flaskr/__init__.py:186-205 | The loop as written serves an unseen first draw at once. After a seen first draw, equal lengths end the quiz at the redraw. It serves only the first unseen draw, ends the quiz only when `len(previous_questions) == len(questions)`, keeps drawing exactly while every draw was seen and the lengths differ (or only the first draw was made), and fails with a range error exactly when there is no candidate |
| Quiz.RetryNeverEnds | backend/flaskr/__init__.py:200-205 | Once every candidate was served but the lengths differ, no sequence of draws lets the retry loop return |
| Quiz.RejectionLoopCanRunForever | backend/flaskr/__init__.py:198-205 | The same holds of the whole selection: it keeps drawing forever |
| Quiz.RepeatedHistorySpins | backend/flaskr/__init__.py:200-205 | With one candidate (id 1) and history `[1, 1]`, every candidate was served, yet the loop never returns |
| Quiz.ForeignHistoryEndsEarly | backend/flaskr/__init__.py:200-205 | With candidates 1 and 2 and history `[1, 99]`, the draws `[0, 1]` end the quiz although question 2 was never served |
| Quiz.NextQuestion | backend/flaskr/__init__.py:186-205 | The intended selection serves some candidate not in `previous_questions`. It serves no question exactly when every candidate was served, including when there is no candidate |
| Quiz.ExhaustedIffSameLength | backend/flaskr/__init__.py:202 | For a history without repeats and holding only candidate ids, the length test of the source is exactly the "every candidate served" test, and the history is never longer than the pool |
| Quiz.RejectionLoopAgreesOnWellFormedHistory | backend/flaskr/__init__.py:198-205 | On such a history the as-written loop ends the quiz only when every candidate was served; once that holds, any two draws end it |
| Quiz.SessionProgresses | backend/flaskr/__init__.py:191-205 | Appending a served question's id keeps the history well-formed and shorter than the pool, so a client that accumulates ids receives at most one question per candidate before the quiz ends |
| Routes.Handler | backend/flaskr/__init__.py:216-238 | Each error response has `success` false, repeats its status as `error`, and carries the fixed message for 400, 404 or 422 |
| Routes.HandlerFor | backend/flaskr/__init__.py:216-238 | A handler is registered for exactly the statuses 400, 404 and 422, and each answers with its own status |
| Routes.ErrorTableRoundTrip | backend/flaskr/__init__.py:216-238 | Every error code the routes raise reaches its own handler |
| Routes.GetCategories | backend/flaskr/__init__.py:45-58 | 404 exactly when there is no category. Otherwise it returns the category map (keys exactly the category ids, each mapped to the type of its last row), and with unique ids each id maps to its type |
| Routes.GetQuestions | backend/flaskr/__init__.py:60-80 | 400 exactly when the requested page is empty, which for a positive page means it starts past the end. Otherwise the route returns one to ten questions of that page, the unpaginated total, the placeholder category, and the same category map as GET /categories, whose contract gives its keys as exactly the category ids, each mapped to the type of the last row carrying it |
| Routes.DeleteQuestion | backend/flaskr/__init__.py:82-94 | An absent id gives 422 and leaves the store unchanged. A present id removes exactly one row carrying that id, shrinks the table by one, leaves the categories alone, and echoes the id |
| Routes.RemoveRow | backend/flaskr/__init__.py:88 | Deleting one row of a table with unique keys keeps the keys unique and keeps exactly the rows with other keys |
| Routes.DeleteRemovesExactlyThatQuestion | backend/flaskr/__init__.py:84-92 | After deleting a present id, a lookup of that id finds nothing, and every other question is still stored |
| Routes.PostQuestion | backend/flaskr/__init__.py:96-130 | A missing field, or a key collision on insert, gives 422 and leaves the store unchanged. Otherwise the table grows by exactly one row after the old rows, carrying the new id and the submitted fields; `created` is the new id, and the total is the new table size |
| Routes.CreatedQuestionIsRetrievable | backend/flaskr/__init__.py:110-125 | The created question can be looked up by its new id and carries exactly the submitted question, answer, difficulty and category; ids stay unique |
| Routes.SearchQuestions | backend/flaskr/__init__.py:132-149 | 404 exactly when no question matches. Otherwise the route returns the total match count before pagination and the requested page of matches, each a stored, matching question |
| Routes.SearchFindsSubstrings | backend/flaskr/__init__.py:138-147 | For a wildcard-free term, the search succeeds exactly when some question contains the term ignoring case, and it counts exactly those questions |
| Routes.GetQuestionsByCategory | backend/flaskr/__init__.py:151-168 | 400 exactly when the category id is unknown. Otherwise every returned question is stored and has that category, the total is that category's question count, and `current_category` is the category's type |
| Routes.GetQuizQuestion | backend/flaskr/__init__.py:170-210 | 400 exactly when `previous_questions` or `quiz_category` is missing. Otherwise a served question is stored, belongs to the requested category (unless it is 0) and is not in `previous_questions`, and no question is served exactly when every candidate was |

## Left out

- Flask routing, `request.args` and `get_json` parsing, and `jsonify`. The routes take the page number and the body fields already parsed, and a missing field is `None`. The default page 1 is the caller's concern. A missing or non-JSON body, and a `quiz_category` object without an `id` key, would raise in the source; they are not modelled.
- Routes.DeleteQuestion and Routes.GetQuestionsByCategory take the path id as a `nat`. Flask's `<int:id>` converter does not match a negative id, so such a request gets the routing 404 before any route runs; that routing step is not modelled.
- CORS setup and the `after_request` headers (lines 31-41): HTTP plumbing with no behaviour to state.
- The SQLAlchemy models and database, which are not part of this model. Tables are sequences in query order, and an inserted row goes at the end. The id the database assigns to a new row is a parameter of `Routes.PostQuestion`.
- Routes.DeleteQuestion: database errors during `delete()` are not modelled, only the missing-row path to 422, because the persistence layer is not part of this model.
- Routes.PostQuestion: only a primary-key collision is modelled as an insert failure. Other database errors that the bare `except` turns into 422 are not modelled.
- Search.Lower: case folding covers ASCII letters only. The database's locale-dependent lower-casing of other characters is not modelled.
- Search.Ilike: a pattern ending in a lone backslash would make the database raise an error. The matcher treats it as no match instead. `Search.SearchPattern` never builds such a pattern, because it always ends in `%`.
- `random.randrange` itself: randomness is the `draws` parameter of `Quiz.RejectionLoop` and the nondeterministic choice in `Quiz.NextQuestion`. Probabilities, and termination with probability one, are not modelled.
- Quiz.RejectionLoop: the `question.format()` response body is the `Question` record itself.
- `backend/test_flaskr.py`: a test harness against a live database. It served only as a description of intended behaviour.

## Findings

| source | as written | input that shows it | evidently intended | confidence | as-written member | corrected member |
|---|---|---|---|---|---|---|
| backend/flaskr/__init__.py:200-205 | The quiz ends only when `len(previous_questions) == len(questions)`, and otherwise the loop redraws while the draw was served before | one candidate with id 1 and `previous_questions = [1, 1]`: every candidate was served, the lengths differ, and the loop never returns | Answer without a question once every candidate has been served | medium (not executed) | Quiz.RepeatedHistorySpins | Quiz.NextQuestion |
| backend/flaskr/__init__.py:200-205 | The length comparison happens after each redraw, regardless of what was drawn | candidates with ids 1 and 2, `previous_questions = [1, 99]`, draws 0 then 1: the quiz ends although question 2 was never served | Serve a question whenever an unseen candidate remains | medium (not executed) | Quiz.ForeignHistoryEndsEarly | Quiz.NextQuestion |
| backend/flaskr/__init__.py:186-188 | `random.randrange(0, len(questions))` runs before any check | a `quiz_category` id with no questions: `randrange(0, 0)` raises and the request fails | Answer without a question when there is no candidate | high (not executed) | Quiz.RejectionLoop | Quiz.NextQuestion |
