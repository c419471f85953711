# Trivia API backend — a verified model

The Trivia API is a small Flask backend. It serves trivia questions and
categories from two relational tables. It lists questions ten to a page,
deletes and creates questions, searches question text, filters by category,
and picks a quiz question. This project models the application module
`starter/backend/flaskr/__init__.py` in Dafny:

- `paginate_questions`, with Python's slice semantics (negative bounds count
  from the end; bounds are clamped);
- the seven route handlers, over an in-memory table rather than the ORM.
  The question table is a sequence of records kept in id order. The category
  table is a sequence of `(id, type)` records;
- the error handlers' status-to-message table.

Files, one module each:

- `optional.dfy` — `Option`, for absent JSON fields, absent query arguments
  and NULL columns.
- `http.dfy` — the statuses 400/404/422/500 and their JSON envelopes. It also
  holds `CatchAll`, which models `try: ... except: abort(code)`. A bare
  `except:` also catches the HTTPException raised by an `abort(...)` inside
  the `try`, so the inner status is replaced. That is how the delete
  handler's 404 becomes 422 and the quiz's 400 becomes 422.
- `pagination.dfy` — page number parsing, Python slicing, `Paginate`, and
  lemmas on positive, zero and negative pages and on the pages covering the
  selection.
- `ilike.dfy` — `ILIKE '%term%'` as ASCII case-insensitive substring search,
  with a scanning test proved equal to "occurs at some index".
- `models.dfy` — the records and the sequence operations that stand for the
  ORM calls: `Filter` for `filter`, `Find` for `one_or_none`, `Without` for
  `delete`, append-with-fresh-id for `insert`, and the id-to-type
  dictionary.
- `handlers.dfy` — the read-only handlers as functions, and the class
  `QuestionTable` whose methods `DeleteQuestion` and `CreateQuestion` change
  the table. It also holds the `PlayQuiz` method. Its loop
  `for next_question.id in previous_questions` assigns each previous id in
  turn to the chosen record's id, so the answer carries the last one.

Python exceptions that are not HTTP aborts are modelled as `Abort(ServerError)`
raised inside the `try`: an AttributeError on a missing body, a KeyError on a
missing `id`, the ValueError of `randint(0, -1)`, and a storage error on a
NOT NULL violation. An enclosing `except:` then maps them to its own status.

The schema in `models.py` is not part of this model. Which columns are NOT
NULL is therefore a parameter of `QuestionTable` (`notNull`). `format()` is
taken as the identity on a record. The random choice is the parameter `draw`,
with `0 <= draw < |pool|` whenever the pool is non-empty.

## Model

| member | source | states |
|---|---|---|
| `Http.Code` | starter/backend/flaskr/__init__.py:230-260 | each status has its own numeric code: 400, 404, 422 or 500 |
| `Http.ErrorEnvelope` | starter/backend/flaskr/__init__.py:230-260 | an error body has `success` false and `error` equal to the status code |
| `Http.CatchAll` | starter/backend/flaskr/__init__.py:91-109 | a bare `except: abort(code)` passes a success through unchanged and turns every abort of the attempt, whatever its status, into `code` |
| `Pagination.PageNumber` | starter/backend/flaskr/__init__.py:13 | the page is 1 when the argument is absent or not an integer; otherwise it is the given integer, unvalidated |
| `Pagination.Paginate` | starter/backend/flaskr/__init__.py:12-20 | for any page number, the page has at most 10 records and is a run of consecutive records of the selection, in order, starting at the normalised slice start |
| `Pagination.PositivePage` | starter/backend/flaskr/__init__.py:14-18 | for page >= 1 the page is the selection from index (page-1)*10 up to min(page*10, n); its k-th record is record (page-1)*10+k of the selection |
| `Pagination.PageBeyondEnd` | starter/backend/flaskr/__init__.py:14-18 | a page that starts at or past the end of the selection is empty, and this is not an error |
| `Pagination.PageZero` | starter/backend/flaskr/__init__.py:14-18 | page 0 is always empty, because the end bound 0 is not counted from the end |
| `Pagination.NegativePage` | starter/backend/flaskr/__init__.py:14-18 | a negative page counts from the end: its bounds are n+(page-1)*10 and n+page*10, clamped at 0 |
| `Pagination.PositivePageEmptyIff` | starter/backend/flaskr/__init__.py:14-18 | for page >= 1 the page is empty exactly when (page-1)*10 >= n |
| `Pagination.PageMembers` | starter/backend/flaskr/__init__.py:17-18 | every record of a page is a record of the selection |
| `Pagination.FirstPagesArePrefix` | starter/backend/flaskr/__init__.py:12-20 | pages 1..k read one after another give the first min(10k, n) records in order, with nothing skipped or repeated |
| `Pagination.PagesPartitionSelection` | starter/backend/flaskr/__init__.py:12-20 | pages 1..ceil(n/10) together are exactly the selection, and every later page is empty |
| `Ilike.ContainsIff` | starter/backend/flaskr/__init__.py:155-156 | the substring scan succeeds exactly when the pattern occurs at some index of the text (both directions) |
| `Ilike.MatchesIgnoresCase` | starter/backend/flaskr/__init__.py:156 | lower-casing the column or the term never changes whether they match |
| `Ilike.EmptyTermMatchesAll` | starter/backend/flaskr/__init__.py:156 | the empty search term matches every question text |
| `Ilike.LiteralOccurrenceMatches` | starter/backend/flaskr/__init__.py:156 | a term that occurs literally in the text matches it |
| `Models.Record` | starter/backend/flaskr/__init__.py:127-128 | the new record carries the key the storage assigned and the four request fields |
| `Models.Without` | starter/backend/flaskr/__init__.py:97 | the table after the delete holds exactly the records whose id differs from the deleted one, and never more records than before |
| `Models.CategoryMap` | starter/backend/flaskr/__init__.py:57 | the dictionary has an entry for every category id and no more entries than categories |
| `Pagination.PySlice` | starter/backend/flaskr/__init__.py:18 | a Python slice has length max(0, end - start) of the normalised bounds and is the run of the list starting at the normalised start |
| `Ilike.Matches` | starter/backend/flaskr/__init__.py:156 | the column matches the term exactly when the lower-cased term occurs at some index of the lower-cased column |
| `Handlers.SearchText` | starter/backend/flaskr/__init__.py:153-156 | the text searched for is the given term, or "None" when the term is missing, as the f-string renders it |
| `Handlers.Relabel` | starter/backend/flaskr/__init__.py:215-216 | after the loop the record keeps every field but `id`; its id is the last previous id, or unchanged when there are none |
| `Handlers.QuizOutcome` | starter/backend/flaskr/__init__.py:196-223 | every failure is 422; a success comes from a well-formed request with a non-empty pool and is the drawn pooled record up to its id |
| `Models.Filter` | starter/backend/flaskr/__init__.py:178 | a filter never returns more records than its input |
| `Models.FilterMembers` | starter/backend/flaskr/__init__.py:178 | a filter keeps exactly the records of its input that pass the test |
| `Models.FilterDropsOne` | starter/backend/flaskr/__init__.py:97 | filtering drops one failing record from between two runs of passing records, and keeps those runs in order |
| `Models.IdsAround` | starter/backend/flaskr/__init__.py:98 | in an id-ordered table, the records before a position have smaller ids and those after it larger ones |
| `Models.FilterConcat` | starter/backend/flaskr/__init__.py:178 | filtering a concatenation is the concatenation of the filtered parts, so order is kept |
| `Models.FilterKeepsAll` | starter/backend/flaskr/__init__.py:178 | a filter that every record passes returns the sequence unchanged |
| `Models.FilterDropsAll` | starter/backend/flaskr/__init__.py:178 | a filter that no record passes returns the empty sequence |
| `Models.FilterKeepsSorted` | starter/backend/flaskr/__init__.py:98 | filtering an id-ordered table leaves it id-ordered |
| `Models.FilterSingle` | starter/backend/flaskr/__init__.py:155-156 | in a table with unique ids, a filter that one record alone passes returns exactly that record |
| `Models.Find` | starter/backend/flaskr/__init__.py:92 | the lookup returns an index holding the id, and returns None exactly when no record has that id |
| `Models.RemoveAtIsWithout` | starter/backend/flaskr/__init__.py:97 | deleting the record at index i of an id-ordered table is removing that one slot, with the rest kept in order |
| `Models.DeleteExisting` | starter/backend/flaskr/__init__.py:97-105 | deleting an existing id lowers the count by one and removes only that id; every other record stays, and the id order is kept |
| `Models.DeleteMissing` | starter/backend/flaskr/__init__.py:92-95 | deleting an id no record has leaves the table unchanged |
| `Models.AppendFresh` | starter/backend/flaskr/__init__.py:127-129 | appending a record whose id is above all others keeps the table id-ordered; the id was unused and is now added |
| `Models.CategoryMapKeys` | starter/backend/flaskr/__init__.py:57 | the dictionary's keys are exactly the category ids |
| `Models.CategoryMapEntries` | starter/backend/flaskr/__init__.py:57 | with unique ids, the dictionary has one entry per category, mapping its id to its `type` |
| `Handlers.RetrieveCategories` | starter/backend/flaskr/__init__.py:47-58 | 404 exactly when there are no categories; otherwise the mapping's keys are the category ids |
| `Handlers.CategoriesOnePerEntry` | starter/backend/flaskr/__init__.py:54-58 | for a non-empty category table with unique ids, the answer has one entry per category, holding its `type` |
| `Handlers.RetrieveQuestions` | starter/backend/flaskr/__init__.py:67-83 | 404 exactly when the page slice is empty; otherwise 1 to 10 questions (the page itself), the whole table's count as total, the category mapping, and a null current category |
| `Handlers.ListingNotFoundIff` | starter/backend/flaskr/__init__.py:69-75 | for page >= 1, 404 exactly when (page-1)*10 >= the question count; page 0 is always 404; with no page argument, 404 exactly when the table is empty |
| `Handlers.SearchMatches` | starter/backend/flaskr/__init__.py:155-156 | the matches are exactly the questions whose non-NULL text contains the term, ignoring case |
| `Handlers.SearchQuestions` | starter/backend/flaskr/__init__.py:150-169 | 404 exactly when no question matches; otherwise the total is the number of matches (at least 1), and the questions are the requested page of the matches: at most 10, all matching |
| `Handlers.SearchSingleMatch` | starter/backend/flaskr/__init__.py:150-169 | a term matching exactly one question returns that question alone, with a total of 1 |
| `Handlers.SearchPastLastPage` | starter/backend/flaskr/__init__.py:158-167 | with matches present, a page past the last one is a success with an empty list and the full match count, not a 404 |
| `Handlers.InCategory` | starter/backend/flaskr/__init__.py:178 | the category filter keeps exactly the questions whose category equals the id |
| `Handlers.RetrieveQuestionsByCategory` | starter/backend/flaskr/__init__.py:175-187 | for the unsigned ids the route admits, always a success; the list is exactly the category's questions in table order, unpaginated and without repeats; the total is its length and the id is echoed |
| `Handlers.EmptyCategoryIsNotAnError` | starter/backend/flaskr/__init__.py:158-187 | a category with no questions gives success with an empty list and total 0, while a search with no match gives 404 |
| `Handlers.QuestionTable.constructor` | starter/backend/flaskr/__init__.py:26 | a new table is empty and valid, and its first key is 1 |
| `Handlers.QuestionTable.DeleteQuestion` | starter/backend/flaskr/__init__.py:89-109 | for the unsigned ids the route admits, a missing id gives 422 (not 404) and no change; an existing id is removed, nothing else changes, the count drops by one, and the answer carries the id, the new page and the new count |
| `Handlers.QuestionTable.CreateQuestion` | starter/backend/flaskr/__init__.py:117-142 | an insert that violates NOT NULL gives 422 and no change; otherwise exactly one record with the given fields and a fresh id is appended, and the answer carries that id, the new page and the old count plus one |
| `Handlers.ListingAfterDelete` | starter/backend/flaskr/__init__.py:89-109 | after deleting an existing id, no page of the listing holds that id, and the listing's total is one less |
| `Handlers.QuizPool` | starter/backend/flaskr/__init__.py:206-209 | the pool is every question for category 0, and otherwise exactly the questions of that category |
| `Handlers.PlayQuiz` | starter/backend/flaskr/__init__.py:196-223 | the loop-based handler gives exactly the answer of the loop-free statement of the quiz, including each failure path |
| `Handlers.QuizFailures` | starter/backend/flaskr/__init__.py:198-223 | the quiz never answers 400; it answers 422 exactly when a field, the body or the `id` key is missing, or the pool is empty |
| `Handlers.QuizDrawsFromPool` | starter/backend/flaskr/__init__.py:206-213 | a successful answer is a question of the table, in the requested category (any for 0), with every field but `id` unchanged |
| `Handlers.QuizReturnsPreviousId` | starter/backend/flaskr/__init__.py:215-216 | with non-empty `previous_questions`, the answer's id is the last previous id, and so is always one already served |
| `Handlers.QuizIgnoresHistory` | starter/backend/flaskr/__init__.py:211-216 | `previous_questions` does not affect which record is drawn; two requests differing only there agree on success and on every field but the id |
| `Handlers.QuizOutcomeExcluding` | starter/backend/flaskr/__init__.py:190-194 | the quiz as its description intends: 422 exactly when the request is malformed or every pooled question was served; otherwise a pooled question whose id is not among `previous_questions` |

## Left out

- CORS setup and the `after_request` header injection (lines 25-40), and
  `jsonify`: framework plumbing with no decision logic.
- Routing. The `<int:...>` converters of the routes at lines 89 and 175 match
  unsigned digit strings only, so a negative id never reaches the handler and
  the router answers 404. `Handlers.QuestionTable.DeleteQuestion` and
  `Handlers.RetrieveQuestionsByCategory` therefore require a non-negative id,
  and the model does not state the router's 404.
- SQLAlchemy sessions, transactions and connection failures. Storage is a
  sequence. The gap between a delete or insert and the re-query is not
  modelled. An `except:` branch that only a storage failure could reach is
  present, through `CatchAll`, but no input of the model reaches it.
- Row order of queries without `order_by` (search, category filter, the quiz
  pool, `Category.query.all()`): the model uses the table's id order.
- SQL `LIKE` wildcards and escapes: `%` and `_` inside a search term are not
  treated as wildcards, and `\` (PostgreSQL's default LIKE escape character)
  is not treated as an escape. Only ASCII letters are case-folded. A missing term is searched as
  the text "None", as the f-string renders it.
- A request with no JSON body at lines 119 and 152: `.get` on `None` raises
  outside the `try`, and the framework answers 500.
- JSON values of the wrong type (a non-integer `id`, a `previous_questions`
  that is not a list, an integer field sent as text): each request field has
  one fixed type in the model.
- Handlers.QuestionTable.CreateQuestion: promises success whenever the NOT
  NULL columns are provided. It does not model column widths: an integer
  `category` or `difficulty` outside the column's range (2^31 or more for a
  32-bit integer column) makes the insert fail, which the handler answers
  with 422. The schema in `models.py` is not part of this model.
- Randomness: `random.randint` is the parameter `draw`.
- The key sequence: in the model a refused insert consumes no key. A
  database sequence may consume one, so keys are only promised to be fresh
  and increasing.
- `Question.format()` and `models.py` are not part of this model. A record
  is its own serialisation, and the NOT NULL columns are a parameter.
- Handlers.RetrieveCategories: its contract states the keys of the mapping;
  the values are stated by `Handlers.CategoriesOnePerEntry` under the table's
  unique-id key constraint.

## Findings

| source | as written | input that shows it | evidently intended | confidence | as-written member | corrected member |
|---|---|---|---|---|---|---|
| starter/backend/flaskr/__init__.py:215-216 | `for next_question.id in previous_questions: continue` assigns each previous id to the drawn question's `id`, and excludes nothing | table with one question, id 1; body `{"quiz_category": {"id": 0}, "previous_questions": [5]}`: the answer is question 1 reported with id 5 | the description at lines 190-193 asks for a question that is not one of the previous ones | high (not executed) | `Handlers.QuizReturnsPreviousId` | `Handlers.QuizOutcomeExcluding` |
