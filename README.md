# Trivia API handlers, modelled in Dafny

The trivia service is a small Flask backend over two tables: `questions` (id, question, answer,
difficulty, category) and `categories` (id, type). It lists categories, lists questions ten per
page, filters questions by category, deletes a question, creates or searches questions at one
endpoint, and picks the next quiz question a client has not yet seen. It answers errors with
fixed JSON bodies.

This project models those selection, pagination and dispatch rules over an in-memory store
instead of SQL:

- `sequences.dfy` (module `Sequences`) holds generic stand-ins for the query builder.
  `Filter` is `filter`/`filter_by`, `First` is `first()` and `SortBy` is `order_by`. The module
  also has lemmas about them: filtered counts ignore order, narrowing a filter shrinks it, and
  filtering keeps a sorted list sorted.
- `pagination.dfy` (module `Pagination`) models `paginate_questions`. It is Python's slice
  `items[start:end]` with `start = (page - 1) * 10`, including Python's handling of negative and
  out-of-range bounds. Lemmas say which page each item lands on and that pages 1 to ceil(n / 10)
  rebuild the list.
- `text.dfy` (module `Text`) models `ilike '%term%'` as an ASCII case-insensitive substring test.
- `trivia.dfy` (module `Trivia`) holds the rest:
  - the two rows as datatypes;
  - the handler outcome `Ok(payload) | NotFound | Unprocessable | Fault`;
  - the read-only handlers, as functions of the two tables' contents;
  - the error handlers' fixed bodies;
  - the `Store` class. Its methods `DeleteQuestion` and `CreateQuestion` change the
    questions table in place and state the whole new state.

Rows that a query reads without `order_by` come in storage order, which is the order of the
`seq`. Rows read with `order_by(Question.id)` come from `SortBy(QuestionId, …)`. `Store.Valid()`
keeps question ids unique and below the next auto-increment id, and keeps category ids unique.
The column the service calls `type` is named `kind` here, because `type` is a Dafny keyword.

### Where the code and its tests disagree

The model follows the code.

- When no quiz question is left, `next_question` is `None`, so `None.format()` raises. The bare
  `except` turns that into a 422 (`PlayQuiz`; `QuizExampleFromTests` shows it for the tests'
  requests on any table whose category-3 questions are 13, 14 and 15). The test at
  backend/test_flaskr.py:115-123 instead expects a 200 with a null question, although the
  test's name speaks of a 422.

### Behaviour that is easy to misread

- The quiz query and the category filter have no `order_by`. The model therefore promises
  storage order for them, not ascending id order. No test depends on either order.
- Deleting a missing id gives 422, not 404. The `abort(404)` is raised inside the `try`, and
  the bare `except` catches it and calls `abort(422)`. The test at backend/test_flaskr.py:97-103
  expects this 422 as well.

## Model

| member | source | states |
|---|---|---|
| `Pagination.Paginate` | backend/flaskr/__init__.py:9-20 | a page has at most 10 items, all from the list; page 0 is empty; for page >= 1 it is `items[min((page-1)*10, n) .. min(page*10, n)]`, empty exactly when `(page-1)*10 >= n` |
| `Pagination.PySliceIndices` | backend/flaskr/__init__.py:18 | Python's `s[start:stop]`: in-range bounds slice as written; negative bounds `start - n`, `stop - n` (with `stop < n`) give the same run; a non-negative stop at or below the start, a start past the end, or a stop of 0 gives `[]` |
| `Pagination.NegativePageExample` | backend/flaskr/__init__.py:13-18 | with Python's negative indices, page -1 of 25 items is items 5 to 14 |
| `Pagination.PaginateSorted` | backend/flaskr/__init__.py:18 | a page of an id-ordered list is id-ordered, on every page number |
| `Pagination.PageOfIndex` | backend/flaskr/__init__.py:14-18 | among pages >= 1, index `i` lies on page `i / 10 + 1` and on no other, at position `i % 10` |
| `Pagination.OnSomePage` | backend/flaskr/__init__.py:14-18 | every item of the list is on some page >= 1 |
| `Pagination.PageNonEmpty` | backend/test_flaskr.py:61-67 | page >= 1 is non-empty exactly when `page <= ceil(n / 10)`; beyond that the listing is empty (the 404 of the test) |
| `Pagination.PagesPrefix` | backend/flaskr/__init__.py:14-18 | pages 1 to k concatenated are the first `min(10k, n)` items |
| `Pagination.PagesReassemble` | backend/flaskr/__init__.py:14-18 | pages 1 to ceil(n / 10) concatenated give back the whole list in order |
| `Sequences.Filter` | backend/flaskr/__init__.py:148 | a filtered query keeps exactly the rows satisfying its condition, no more rows than the table |
| `Sequences.First` | backend/flaskr/__init__.py:176 | `first()` is None exactly when no row qualifies, else the earliest qualifying row in storage order |
| `Sequences.SortBy` | backend/flaskr/__init__.py:59 | `order_by(id)` returns the same rows (as a multiset), in ascending id order |
| `Sequences.SortByMembers` | backend/flaskr/__init__.py:59 | a row is in the id-ordered selection exactly when it is in the table |
| `Sequences.SortBySorted` | backend/flaskr/__init__.py:59 | ordering rows that are already in id order leaves them unchanged |
| `Sequences.FilterSorted` | backend/flaskr/__init__.py:108-110 | filtering an id-ordered selection keeps it id-ordered |
| `Sequences.FilterCount` | backend/flaskr/__init__.py:117 | how many rows satisfy a filter does not depend on the order the rows are read in |
| `Sequences.FilterNarrows` | backend/flaskr/__init__.py:171-174 | a stricter filter that excludes one more row keeps strictly fewer rows |
| `Text.ContainsInfix` | backend/flaskr/__init__.py:109 | `ilike '%term%'` on ASCII matches any text that contains the term, whatever surrounds it |
| `Text.ContainsIgnoringCaseOfTerm` | backend/flaskr/__init__.py:109 | the match ignores the letter case of both the term and the text |
| `Text.LowerAppend` | backend/flaskr/__init__.py:109 | lower-casing works character by character, so it distributes over concatenation |
| `Trivia.CategoryMap` | backend/flaskr/__init__.py:48 | the id-to-type map has exactly the table's ids as keys, each mapped to the type of a row with that id |
| `Trivia.RetrieveCategories` | backend/flaskr/__init__.py:41-55 | NotFound exactly when the categories table is empty; otherwise the map maps every category id, and only those, to its type (when ids are unique) |
| `Trivia.RetrievePaginatedQuestions` | backend/flaskr/__init__.py:57-76 | NotFound exactly when the page of the id-ordered table is empty or there are no categories (for page >= 1: `(page-1)*10 >= n`); on success at most 10 id-ordered questions from the table, `total_questions` is the unfiltered table size, the categories are those of `GET /categories`, `current_category` is null |
| `Trivia.RetrieveQuestionsByCategory` | backend/flaskr/__init__.py:146-161 | NotFound exactly when the page of the category's questions (storage order) is empty; Fault exactly when the page is non-empty but no category row has the id; on success every question is from the table and in that category, for page >= 1 the page is `sel[min((page-1)*10, m) .. min(page*10, m)]` of the category's questions `sel` in storage order (`m = |sel|`), `total_questions` is the global count, and `current_category` is the type of the first row with that id |
| `Trivia.CategoryListsEveryQuestion` | backend/flaskr/__init__.py:146-161 | when the category has a row, every question in it appears on some successful page of its listing |
| `Trivia.SearchQuestions` | backend/flaskr/__init__.py:107-119 | every returned question comes from the table and contains the term case-insensitively; the page is in ascending id order; `total_questions` is the number of all matching questions, at least the page length; for page >= 1 the page is `sel[min((page-1)*10, total) .. min(page*10, total)]` of the id-ordered matches `sel`, empty exactly when `(page-1)*10 >= total` |
| `Trivia.SearchFindsEveryMatch` | backend/flaskr/__init__.py:107-119 | every matching question appears on some page of the search |
| `Trivia.PlayQuiz` | backend/flaskr/__init__.py:163-186 | Unprocessable exactly when a body field is missing or no question is both unseen and in the category (id 0 = all); otherwise the first such question in storage order, whose id is not in `previous_questions` and whose category is the requested one when that id is non-zero |
| `Trivia.QuizAdvances` | backend/flaskr/__init__.py:171-176 | adding the served id to `previous_questions` leaves strictly fewer eligible questions |
| `Trivia.QuizSession` | backend/flaskr/__init__.py:163-186 | a client that keeps sending back every served id gets at most as many questions as are eligible, never one twice, none seen before, all in the category, and then the 422 of exhaustion |
| `Trivia.QuizExampleFromTests` | backend/test_flaskr.py:105-123 | on any table whose category-3 questions have ids among 13, 14 and 15 and which holds question 15 in category 3, the first request of the tests gets question 15, and the exhausted category gets a 422 where the test expects a 200 |
| `Trivia.ErrorHandler` | backend/flaskr/__init__.py:188-207 | exactly the statuses 404, 422 and 405 have a fixed body, with `success` false, `error` equal to the status and the messages "resource not found", "unprocessable" and "method not allowed" |
| `Trivia.Status` | backend/flaskr/__init__.py:188-200 | success is exactly 200, NotFound exactly 404, Unprocessable exactly 422 and an uncaught fault exactly 500; the first two errors are exactly those answered by a fixed error body |
| `Trivia.BeyondLastPageAnswer` | backend/test_flaskr.py:61-67 | a page past `ceil(n / 10)` of the question listing is answered 404 with the body `{success: false, error: 404, message: "resource not found"}` |
| `Trivia.ExhaustedQuizAnswer` | backend/flaskr/__init__.py:176-186 | a quiz request with no eligible question left is answered 422 with the body `{success: false, error: 422, message: "unprocessable"}` |
| `Trivia.IndexOfId` | backend/flaskr/__init__.py:81 | `one_or_none()` finds a question with the id, or none exactly when no question has it |
| `Trivia.CreatedQuestionIsListed` | backend/test_flaskr.py:125-130 | a newly inserted question becomes the last of its category's listing, so it appears on one of that listing's pages |
| `Trivia.Store.DeleteQuestion` | backend/flaskr/__init__.py:78-94 | an existing id removes exactly that question and keeps the others in order; a missing id gives Unprocessable and leaves the table as it was; afterwards no question has the id; categories unchanged |
| `Trivia.Store.CreateQuestion` | backend/flaskr/__init__.py:96-130 | a non-empty `searchTerm` returns the search and changes nothing; an absent or empty one appends exactly one question with a fresh id and the four body fields unvalidated, keeping existing rows; categories unchanged |

## Left out

- Flask app construction, routing, and the 405 answer the router produces. Only the 405
  handler's fixed body is modelled, in `ErrorHandler`. These belong to the framework.
- The CORS `after_request` headers are left out, because they are HTTP plumbing.
- `setup_db`, SQLAlchemy and the connection configuration are not part of this model. The
  `models` module (`Question.format`, `insert`, `delete`) is not part of this model either.
  Insert and delete are sequence updates on the `Store`, and `format()` is taken to be the
  question record itself.
- Store failures that the bare `except` blocks would turn into 422 are not modelled:
  constraint violations, connection errors, and `one_or_none` finding two rows (which
  `Store.Valid` rules out). So `CreateQuestion` always succeeds.
- All inputs are typed, so the request parsing and coercion around them is not modelled:
  - `request.args.get('page', 1, type=int)`: the page is an integer input. Flask's fallback
    to 1 for a non-numeric page is not modelled.
  - JSON body parsing: a missing or non-JSON body makes `body.get` raise outside the `try`;
    this is not modelled.
  - `CreateRequest`: the four create fields are typed values, so an absent field (stored as
    NULL) and a non-string `searchTerm` are not modelled.
  - Quiz body: a missing `previous_questions` or `quiz_category['id']` is modelled (422).
    The JSON type of the category id is not: a string id such as `'3'` is taken as the
    integer, which matches what the database comparison does with it.
  - `PlayQuiz`: a string category id `'0'` is not modelled. In the source `'0' != 0` holds, so
    `'0'` filters on category 0 and, with no such category, ends in a 422; the model's integer
    0 means "all categories".
  - The category path segment is taken as an integer. A non-numeric segment, where
    `int(category_id)` raises, is not modelled.
- LIKE wildcards (`%` and `_` inside the term) and database collation are left out. Matching
  is plain substring matching with ASCII case folding.
- Storage order stands for the order a query without `order_by` returns rows in; a real
  database leaves that order unspecified. New rows are appended at the end. The next
  auto-increment id is greater than every id in use, and a deleted id is not reused.
- JSON encoding of the success bodies is not modelled; the `success: true` flag is implied by
  `Ok`.
- The unused `random` import and the test harness setup are left out.
- `Trivia.RetrieveCategories`: states the value of each key only when category ids are unique,
  as the primary key guarantees. With duplicate ids it says only that each key maps to the type
  of some row with that id.
