# Trivia API request rules, in Dafny

This project models the request-handling rules of a quiz-trivia backend
(a Flask application over a relational database). The database is
abstracted as an in-memory store. The store holds the question table as a
sequence of rows `Question(id, question, answer, category, difficulty)` in
insertion order, plus the category table as a map `{id: type}`. Each route
handler becomes an operation that returns a payload or a failure:

- `Responses` (`responses.dfy`): `Result`, `Option`, and the two kinds of
  failure. `ApiError(status, message)` is the application's exception,
  rendered by its error handler. `Abort(status)` is a bare `abort()`. The
  constants are 400 "Bad Request", 404 "Not Found", 422 "Unprocessable
  Entity" (section 15.5.21 of RFC 9110), and `Abort(500)`.
- `Seqs` (`sequences.dfy`): the order-keeping filter behind every
  `query.filter(...).all()`, and the lemmas about it.
- `Text` (`text.dfy`): the case-insensitive substring test behind
  `ilike('%term%')`, proved against a reference definition.
- `Models` (`models.dfy`): the question row, key predicates, and the
  primary-key lookup `one_or_none()` as a loop.
- `Flaskr` (`flaskr.dfy`): the read-only handlers as functions.
  - `GET /questions`: page range test, then the page slice.
  - `POST /questions/search`.
  - `GET /categories/<id>/questions`.
  - `POST /quizzes`.
  - The validation chain of `POST /questions`.
- `Store` (`store.dfy`): class `QuestionStore`. It holds the question
  table, the category map and the next key of the table's sequence.
  `DeleteQuestion` and `CreateQuestion` change the table in place.
- `Scenarios` (`scenarios.dfy`): the expectations of the repository's
  test suite, stated over its fixture.

Two behaviours are modelled as the code has them:

1. The page range test uses true division (`page > total / per_page`),
   written with Dafny's `real`. The model does not round the page count
   up. `PageOutOfRangeVersusLastPage` proves exactly what this rejects:
   every page past the last one, and also the last page itself when it
   is a partial page of a table longer than one page. For example,
   page 3 of 25 rows at 10 per page is answered "no more pages"
   (`PartialLastPageDropped`). The comment at
   backend/flaskr/__init__.py:60 says the test detects a page that is
   "out of range", yet that page holds rows 21 to 25.
2. The quiz's only category filter is added when `type == "ALL"`, and
   it keeps rows whose category DIFFERS from the given id. For any other
   type, including an absent one, the id is only checked for existence
   and no category filter applies (`QuizIgnoresCategoryUnlessAll`): only
   the "ALL" branch at backend/flaskr/__init__.py:195-196 adds a filter
   on the category.

## Model

| member | source | states |
|---|---|---|
| `Seqs.Filter` | backend/flaskr/__init__.py:165 | the filtered rows are exactly the rows of the table satisfying the condition, each satisfying it, never more rows than the table |
| `Seqs.FilterMultiplicity` | backend/flaskr/__init__.py:165 | a filtered query returns each satisfying row as many times as the table holds it, and no other row |
| `Seqs.FilterIsSubsequence` | backend/flaskr/__init__.py:198 | a filtered query keeps the table's row order |
| `Text.Contains` | backend/flaskr/__init__.py:146 | the scan answers true exactly when the term occurs at some position of the text |
| `Text.LowerIdempotent` | backend/flaskr/__init__.py:146 | case folding an already folded string changes nothing |
| `Text.ContainsIgnoreCase` | backend/flaskr/__init__.py:146 | `ilike('%term%')` holds exactly when the lower-cased term occurs in the lower-cased text |
| `Models.FindQuestion` | backend/flaskr/__init__.py:89 | the lookup finds no row exactly when no row has the key; otherwise it gives the position of the one row with that key |
| `Flaskr.PageOutOfRange` | backend/flaskr/__init__.py:61 | the range test as written, with true division; it never rejects page 1 |
| `Flaskr.PageOutOfRangeIntegral` | backend/flaskr/__init__.py:61 | with `per_page > 0`, the true-division test equals `page * per_page > total` when `total > per_page`, else `page > 1` |
| `Flaskr.PageOutOfRangeVersusLastPage` | backend/flaskr/__init__.py:60-62 | the test rejects exactly the pages past the rounded-up last page, plus that last page when it is partial and the table spans more than one page |
| `Flaskr.PageStartInRange` | backend/flaskr/__init__.py:61-64 | a page of at least 1 that passes the test starts inside the table, before its end when the table is not empty |
| `Flaskr.ListQuestions` | backend/flaskr/__init__.py:53-64 | page defaults to 1 and per_page to 10: without a page argument the answer is the listing of the first per_page (or 10) rows with the full total; with a page argument it is that page at the given per_page, or at 10 when absent, and "no more pages" exactly when the test rejects it |
| `Flaskr.GetQuestions` | backend/flaskr/__init__.py:51-84 | out of range gives "no more pages" (empty list, total 0); a page below 1 gives 500; otherwise the page's rows in store order, non-empty for a non-empty table, with the unfiltered total, the category map and "Science" |
| `Flaskr.FirstPageListsLeadingRows` | backend/flaskr/__init__.py:61-79 | page 1 is never out of range and lists the first `per_page` rows |
| `Flaskr.PartialLastPageDropped` | backend/flaskr/__init__.py:61-62 | with 25 rows at 10 per page the last page is 3, yet page 3 is answered "no more pages" |
| `Flaskr.SearchQuestions` | backend/flaskr/__init__.py:137-156 | no search term gives abort(400); otherwise the rows are exactly those whose text contains the term ignoring case, and the total is their number |
| `Flaskr.SearchKeepsStoreOrder` | backend/flaskr/__init__.py:145-151 | search results come in store order, each matching row as often as it is stored |
| `Flaskr.SearchIgnoresCaseOfTerm` | backend/flaskr/__init__.py:146 | two terms equal up to letter case give the same answer |
| `Flaskr.SearchForFoldedTerm` | backend/flaskr/__init__.py:146 | searching for the lower-case form of a term gives the same answer as the term |
| `Flaskr.SearchWithoutMatchIsEmpty` | backend/flaskr/__init__.py:145-153 | a term no row contains gives an empty list and total 0 |
| `Flaskr.GetQuestionsByCategory` | backend/flaskr/__init__.py:158-176 | an unknown category gives 404 "Not Found"; otherwise exactly the rows of that category |
| `Flaskr.ByCategoryKeepsStoreOrder` | backend/flaskr/__init__.py:165 | the rows of a category come in store order, each as often as it is stored |
| `Flaskr.ValidateCreate` | backend/flaskr/__init__.py:101-121 | no body or any missing field gives 400, whatever the category; only a complete body with an unknown category gives 422; otherwise the body's four fields, with an existing category |
| `Flaskr.EligibleQuestions` | backend/flaskr/__init__.py:194-198 | the eligible rows are exactly the rows not asked before that, for type "ALL" only, are not of the given category; for any other type there is no category condition |
| `Flaskr.PickIndex` | backend/flaskr/__init__.py:207 | the drawn index is within the eligible rows, and any index can be drawn |
| `Flaskr.GetQuizQuestion` | backend/flaskr/__init__.py:178-213 | 404 exactly when the id is missing, or the type is not "ALL" and the category is unknown; no question exactly when no row is eligible; a returned question is a row of the table, not asked before, and for "ALL" not of the given category |
| `Flaskr.QuizCanPickAnyEligible` | backend/flaskr/__init__.py:203-209 | every eligible row is the answer for some random draw |
| `Flaskr.QuizIgnoresCategoryUnlessAll` | backend/flaskr/__init__.py:188-196 | for a type other than "ALL", any two existing category ids give the same answer |
| `Flaskr.QuizExhausted` | backend/flaskr/__init__.py:194-201 | once every row's key is among the previous questions, the answer is no question |
| `Store.RemoveAtIsWithoutId` | backend/flaskr/__init__.py:89-92 | with keys increasing along the table, removing the row at any position removes exactly the rows with its key |
| `Store.WithoutIdKeepsKeyOrder` | backend/flaskr/__init__.py:92 | deleting a row keeps keys increasing and below the next key |
| `Store.QuestionStore.DeleteQuestion` | backend/flaskr/__init__.py:86-97 | an absent key gives 404 with the table unchanged; otherwise exactly that row is removed, the rest kept in order, and the key is returned; afterwards no row has the key |
| `Store.QuestionStore.CreateQuestion` | backend/flaskr/__init__.py:99-135 | a validation failure returns its error with the table unchanged; otherwise one row with the body's fields and a fresh key is appended, and that key is returned |
| `Store.DeleteTwice` | backend/flaskr/__init__.py:86-93 | deleting the same key twice answers 404 the second time |
| `Scenarios.ListingScenarios` | backend/test_flaskr.py:83-96 | on the fixture, page 1 at 10 per page lists both questions, and page 1000 is "no more pages" |
| `Scenarios.SearchScenarios` | backend/test_flaskr.py:136-141 | "france" finds exactly the question about France |
| `Scenarios.SearchIgnoresCaseScenario` | backend/flaskr/__init__.py:145-147 | beyond the tests: on the test fixture, "FRANCE" finds the same single question as "france" |
| `Scenarios.SearchWithoutResults` | backend/test_flaskr.py:143-148 | "no results" finds nothing |
| `Scenarios.CategoryScenarios` | backend/test_flaskr.py:150-162 | category 1 has both questions; category 100 gives 404 |
| `Scenarios.QuizScenarios` | backend/test_flaskr.py:164-203 | a quiz over category 1 yields a question; after questions 1 and 2 none is left; category 100 gives 404 |
| `Scenarios.StoreScenario` | backend/test_flaskr.py:98-134 | creating into category 100 gives 422; a complete body for category 1 is inserted and answered with its fresh key 3; deleting question 100 gives 404; deleting question 1 answers 1; beyond the tests, deleting question 1 again gives 404 |

## Left out

- Application set-up, CORS and the `after_request` headers (backend/flaskr/__init__.py:10-34): framework configuration with no rule to state.
- The error handler's JSON rendering (backend/flaskr/__init__.py:215-219): an `ApiError` is a `Failure` value. Its HTTP rendering is not modelled.
- `get_categories` (backend/flaskr/__init__.py:36-49): it returns the category map as stored. The store holds that map directly, so there is no rule to state.
- Flaskr.GetQuestions: requires `per_page > 0`. With `per_page == 0` and a non-empty table the handler divides by zero and answers 500. A negative `per_page` makes the test reject every page from 1 up. Neither case is modelled.
- Flaskr.ListQuestions: requires an explicit `per_page` argument to be positive, for the same reason. An argument that is absent and one that is not an integer are both passed as None, since the handler treats them alike.
- Flaskr.GetQuestions: a page below 1 that passes the range test reaches the pagination library. The model assumes the library refuses it with a 404, which the handler's catch-all turns into 500. The page slice itself is also an assumption: rows `(page-1)*per_page` up to `page*per_page` in store order. None of the four queries has an `ORDER BY`: the page query (lines 57 and 64), the search query (lines 145-147), the category query (line 165) and the quiz query (line 198). Store order is insertion order only by assumption, and `SearchKeepsStoreOrder`, `ByCategoryKeepsStoreOrder` and the row the quiz's draw index selects depend on it.
- Store.QuestionStore.DeleteQuestion: takes any integer key and answers an absent one with the application's 404 `ApiError`. The route converter `<int:question_id>` (backend/flaskr/__init__.py:86) does not match a negative number, so such a request never reaches the handler and Flask answers with its own 404 page instead of the JSON error body; the model does not distinguish that case.
- Flaskr.PageOutOfRange: uses exact rational division. Python's float division rounds (10/3 already does), but Python compares an int with a float exactly, so the rounding can change the test of line 61 only once the total reaches 2^53 rows.
- Flaskr.SearchQuestions: is a plain substring test with ASCII case folding. The database's `ilike` also treats `%` and `_` in the term as wildcards and `\` as its escape character (the term `50\%` matches the text "50%"). It also folds non-ASCII letters by its collation.
- Flaskr.GetQuizQuestion: models `random.randint` as a `draw` parameter. It proves only that the pick is an eligible row and that every eligible row can be picked, not that the pick is uniform.
- A request without a JSON content type, or with malformed JSON, is refused inside `request.get_json()` (backend/flaskr/__init__.py:101, 139, 180) with the framework's 400 or 415. This is not modelled.
- A JSON value that is not an object fails at `data.get` (backend/flaskr/__init__.py:105, 140, 181) with 500. A JSON `null` sent to create is the modelled 400 (`body == None`). A `null` sent to search or quizzes, or a missing `quiz_category` or `previous_questions`, also ends in 500. The model's search and quiz request types always carry those parts.
- Category and question keys are integers. The route parameter and the test bodies send strings that the database coerces. A non-numeric string fails inside the database (500), and that is not modelled.
- All other `except Exception: abort(500)` paths (database failures) and the `print` calls.
- Key generation: the database sequence is modelled as the `nextId` counter, starting at 1 and growing by one per insert.
- The category table never changes. No handler in the core writes it.
