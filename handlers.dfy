/** The route handlers of the trivia application, over an in-memory question
    table and category table. Read-only handlers are functions of the tables;
    delete and create are methods of QuestionTable, which they change; the
    quiz is a method whose loop rewrites the chosen record's id. Every handler
    ends in a success payload or an abort status. */
module Handlers {
  import opened Optional
  import opened Http
  import opened Models
  import opened Pagination
  import Ilike

  /** Payload of GET /questions. */
  datatype QuestionList = QuestionList(
    questions: seq<Question>,
    totalQuestions: nat,
    categories: map<int, string>,
    currentCategory: Option<int>)

  /** Payload of DELETE /questions/<id>. */
  datatype Deleted = Deleted(deleted: int, questions: seq<Question>, totalQuestions: nat)

  /** Payload of POST /questions. */
  datatype Created = Created(created: int, questions: seq<Question>, totalQuestions: nat)

  /** Payload of POST /questions/search. */
  datatype SearchResult = SearchResult(questions: seq<Question>, totalQuestions: nat)

  /** Payload of GET /categories/<id>/questions. */
  datatype CategoryQuestions = CategoryQuestions(questions: seq<Question>, totalQuestions: nat, currentCategory: int)

  /** Payload of POST /quizzes. */
  datatype QuizQuestion = QuizQuestion(question: Question)

  // ---------------------------------------------------------------- categories

  /** GET /categories: every category as an `id -> type` mapping, or 404 when
      the category table is empty. */
  function RetrieveCategories(cats: seq<Category>): (r: Response<map<int, string>>)
    ensures r.Abort? <==> cats == []
    ensures r.Abort? ==> r.status == NotFound
    ensures r.Ok? ==> r.body.Keys == set c | c in cats :: c.id
  {
    CategoryMapKeys(cats);
    if |cats| == 0 then Abort(NotFound) else Ok(CategoryMap(cats))
  }

  /** With the table's unique category ids, the mapping holds one entry per
      category, each the category's `type`. */
  lemma CategoriesOnePerEntry(cats: seq<Category>)
    requires UniqueCategoryIds(cats) && cats != []
    ensures RetrieveCategories(cats).Ok?
    ensures |RetrieveCategories(cats).body| == |cats|
    ensures forall c :: c in cats ==> RetrieveCategories(cats).body[c.id] == c.kind
  {
    CategoryMapEntries(cats);
  }

  // ----------------------------------------------------------------- questions

  /** GET /questions?page=N: the page of the id-ordered question table, the
      total count of the whole table and the category mapping; 404 when the
      page is empty. The 404 is raised outside any `try`, so it stays 404. */
  function RetrieveQuestions(rows: seq<Question>, cats: seq<Category>, page: Option<int>): (r: Response<QuestionList>)
    ensures r.Abort? <==> Paginate(rows, PageNumber(page)) == []
    ensures r.Abort? ==> r.status == NotFound
    ensures r.Ok? ==> 1 <= |r.body.questions| <= QuestionsPerPage && r.body.totalQuestions == |rows|
    ensures r.Ok? ==> r.body.questions == Paginate(rows, PageNumber(page))
    ensures r.Ok? ==> r.body.categories == CategoryMap(cats) && r.body.currentCategory == None
  {
    var current := Paginate(rows, PageNumber(page));
    if |current| == 0 then Abort(NotFound)
    else Ok(QuestionList(current, |rows|, CategoryMap(cats), None))
  }

  /** Listing a page of 1 or more is 404 exactly when the page starts at or
      past the end of the table (an empty table included); page 0 is always
      404. On success the total counts the whole table, not the page. */
  lemma ListingNotFoundIff(rows: seq<Question>, cats: seq<Category>, page: int)
    ensures page >= 1 ==> (RetrieveQuestions(rows, cats, Some(page)).Abort? <==> PageStart(page) >= |rows|)
    ensures RetrieveQuestions(rows, cats, Some(0)).Abort?
    ensures RetrieveQuestions(rows, cats, None).Abort? <==> rows == []
  {
    if page >= 1 {
      PositivePageEmptyIff(rows, page);
    }
    PageZero(rows);
    PositivePageEmptyIff(rows, 1);
  }

  // -------------------------------------------------------------------- search

  /** The pattern `f'%{search_term}%'` puts between its wildcards: a missing
      term is formatted as the text "None". */
  function SearchText(searchTerm: Option<string>): (text: string)
    ensures searchTerm.Some? ==> text == searchTerm.value
    ensures searchTerm.None? ==> text == "None"
  {
    match searchTerm
    case None => "None"
    case Some(t) => t
  }

  /** `Question.question.ilike(f'%{term}%')`; a NULL question matches nothing. */
  predicate MatchesSearch(q: Question, term: string)
  {
    q.question.Some? && Ilike.Matches(q.question.value, term)
  }

  function SearchMatches(rows: seq<Question>, term: string): (matches: seq<Question>)
    ensures forall q :: q in matches <==> q in rows && MatchesSearch(q, term)
  {
    var keep := (q: Question) => MatchesSearch(q, term);
    FilterMembers(rows, keep);
    Filter(rows, keep)
  }

  /** POST /questions/search: the page of matching questions and the number of
      matches; 404 when nothing matches. The 404 from the emptiness test is
      raised inside the `try` and re-raised as 404 by its `except`. */
  function SearchQuestions(rows: seq<Question>, searchTerm: Option<string>, page: Option<int>): (r: Response<SearchResult>)
    ensures r.Abort? <==> forall q :: q in rows ==> !MatchesSearch(q, SearchText(searchTerm))
    ensures r.Abort? ==> r.status == NotFound
    ensures r.Ok? ==> r.body.totalQuestions == |SearchMatches(rows, SearchText(searchTerm))| >= 1
    ensures r.Ok? ==> |r.body.questions| <= QuestionsPerPage
    ensures r.Ok? ==> r.body.questions == Paginate(SearchMatches(rows, SearchText(searchTerm)), PageNumber(page))
    ensures r.Ok? ==> forall q :: q in r.body.questions ==> q in rows && MatchesSearch(q, SearchText(searchTerm))
  {
    var selection := SearchMatches(rows, SearchText(searchTerm));
    var attempt :=
      if |selection| == 0 then Abort(NotFound)
      else Ok(SearchResult(Paginate(selection, PageNumber(page)), |selection|));
    PageMembers(selection, PageNumber(page));
    assert selection == [] <==> forall q :: q in rows ==> !MatchesSearch(q, SearchText(searchTerm)) by {
      if selection != [] {
        assert selection[0] in selection;
      }
    }
    CatchAll(attempt, NotFound)
  }

  /** A term found in exactly one question's text gives that question alone,
      with a total of 1. */
  lemma {:induction false} SearchSingleMatch(rows: seq<Question>, term: string, q: Question)
    requires SortedById(rows)
    requires q in rows && MatchesSearch(q, term)
    requires forall p :: p in rows && p != q ==> !MatchesSearch(p, term)
    ensures SearchQuestions(rows, Some(term), None) == Ok(SearchResult([q], 1))
  {
    var matches := SearchMatches(rows, term);
    FilterSingle(rows, (p: Question) => MatchesSearch(p, term), q);
    PositivePage(matches, 1);
    assert Paginate(matches, PageNumber(None)) == [q];
  }

  /** Unlike the listing, search does not 404 on a page past the last one:
      with at least one match the answer is a success with an empty page. */
  lemma SearchPastLastPage(rows: seq<Question>, term: string, page: int)
    requires SearchMatches(rows, term) != []
    requires PageStart(page) >= |SearchMatches(rows, term)|
    ensures SearchQuestions(rows, Some(term), Some(page))
         == Ok(SearchResult([], |SearchMatches(rows, term)|))
  {
    PageBeyondEnd(SearchMatches(rows, term), page);
  }

  // ---------------------------------------------------------------- by category

  /** `Question.query.filter(Question.category == category_id)`; a NULL
      category equals nothing. */
  function InCategory(rows: seq<Question>, categoryId: int): (matches: seq<Question>)
    ensures forall q :: q in matches <==> q in rows && q.category == Some(categoryId)
  {
    var keep := (q: Question) => q.category == Some(categoryId);
    FilterMembers(rows, keep);
    Filter(rows, keep)
  }

  /** GET /categories/<id>/questions: every question of the category, not
      paginated, with their count and the echoed id. Nothing in the `try` can
      abort, so the handler always succeeds. The route's `<int:...>`
      converter matches unsigned digits only, so the id is never negative. */
  function RetrieveQuestionsByCategory(rows: seq<Question>, categoryId: int): (r: Response<CategoryQuestions>)
    requires categoryId >= 0
    ensures r.Ok?
    ensures r.body.questions == InCategory(rows, categoryId)
    ensures forall q :: q in r.body.questions <==> q in rows && q.category == Some(categoryId)
    ensures r.body.totalQuestions == |r.body.questions| && r.body.currentCategory == categoryId
  {
    var selection := InCategory(rows, categoryId);
    CatchAll(Ok(CategoryQuestions(selection, |selection|, categoryId)), NotFound)
  }

  /** A category with no questions is a success with an empty list and a
      total of 0, where a search with no match is a 404. */
  lemma EmptyCategoryIsNotAnError(rows: seq<Question>, categoryId: int, term: string)
    requires categoryId >= 0
    requires forall q :: q in rows ==> q.category != Some(categoryId)
    requires forall q :: q in rows ==> !MatchesSearch(q, term)
    ensures RetrieveQuestionsByCategory(rows, categoryId) == Ok(CategoryQuestions([], 0, categoryId))
    ensures SearchQuestions(rows, Some(term), None) == Abort(NotFound)
  {
    FilterDropsAll(rows, (q: Question) => q.category == Some(categoryId));
    FilterDropsAll(rows, (q: Question) => MatchesSearch(q, term));
  }

  // ------------------------------------------------------ delete and create

  /** The `questions` table: its rows in id order, the next key the storage
      hands out, and the columns its schema declares NOT NULL. */
  class QuestionTable {
    var rows: seq<Question>
    var nextId: int
    const notNull: set<Column>

    /** Rows are ordered by unique ids, all below the next key. */
    ghost predicate Valid()
      reads this
    {
      SortedById(rows) && forall q :: q in rows ==> q.id < nextId
    }

    constructor (notNull: set<Column>)
      ensures Valid() && rows == [] && nextId == 1 && this.notNull == notNull
    {
      rows := [];
      nextId := 1;
      this.notNull := notNull;
    }

    /** DELETE /questions/<id>?page=N. A missing id aborts with 404 inside the
        `try`, and the bare `except` turns that into 422. An existing id is
        deleted; the answer echoes it, with the new page and the new count.
        The route's `<int:...>` converter matches unsigned digits only, so
        the id is never negative. */
    method DeleteQuestion(questionId: int, page: Option<int>) returns (r: Response<Deleted>)
      requires Valid() && questionId >= 0
      modifies this
      ensures Valid() && nextId == old(nextId)
      ensures rows == Without(old(rows), questionId)
      ensures questionId in Ids(old(rows)) ==>
                |rows| == |old(rows)| - 1 &&
                r == Ok(Deleted(questionId, Paginate(rows, PageNumber(page)), |rows|))
      ensures questionId !in Ids(old(rows)) ==> rows == old(rows) && r == Abort(Unprocessable)
    {
      var attempt: Response<Deleted>;
      var found := Find(rows, questionId);
      if found.None? {
        DeleteMissing(rows, questionId);
        attempt := Abort(NotFound);
      } else {
        RemoveAtIsWithout(rows, found.value);
        DeleteExisting(rows, questionId);
        rows := rows[..found.value] + rows[found.value + 1..];
        attempt := Ok(Deleted(questionId, Paginate(rows, PageNumber(page)), |rows|));
      }
      r := CatchAll(attempt, Unprocessable);
    }

    /** POST /questions. An insert the NOT NULL constraints refuse raises a
        storage error inside the `try`, answered with 422. Otherwise one record
        with the given fields and a fresh id is appended, and the answer gives
        that id, the page of the new table and the new count. */
    method CreateQuestion(fields: NewQuestion, page: Option<int>) returns (r: Response<Created>)
      requires Valid()
      modifies this
      ensures Valid()
      ensures Insertable(fields, notNull) ==>
                old(nextId) !in Ids(old(rows)) &&
                rows == old(rows) + [Record(old(nextId), fields)] &&
                nextId == old(nextId) + 1 &&
                r == Ok(Created(old(nextId), Paginate(rows, PageNumber(page)), |old(rows)| + 1))
      ensures !Insertable(fields, notNull) ==>
                rows == old(rows) && nextId == old(nextId) && r == Abort(Unprocessable)
    {
      var attempt: Response<Created>;
      if !Insertable(fields, notNull) {
        attempt := Abort(ServerError);
      } else {
        var question := Record(nextId, fields);
        AppendFresh(rows, question);
        rows := rows + [question];
        nextId := nextId + 1;
        attempt := Ok(Created(question.id, Paginate(rows, PageNumber(page)), |rows|));
      }
      r := CatchAll(attempt, Unprocessable);
    }
  }

  /** After deleting an existing question, no page of the listing holds its
      id, and the listing's total is one less. */
  lemma ListingAfterDelete(rows: seq<Question>, cats: seq<Category>, id: int, page: Option<int>)
    requires SortedById(rows) && id in Ids(rows)
    ensures var listing := RetrieveQuestions(Without(rows, id), cats, page);
            listing.Ok? ==>
              listing.body.totalQuestions == |rows| - 1 &&
              forall q :: q in listing.body.questions ==> q.id != id
  {
    DeleteExisting(rows, id);
    PageMembers(Without(rows, id), PageNumber(page));
  }

  // ---------------------------------------------------------------------- quiz

  /** The `quiz_category` object of a quiz request; `id` is None when the
      object has no "id" key. */
  datatype QuizCategory = QuizCategory(id: Option<int>)

  /** The JSON body of a quiz request: `quiz_category` and
      `previous_questions`, each None when absent or null. */
  datatype QuizBody = QuizBody(quizCategory: Option<QuizCategory>, previousQuestions: Option<seq<int>>)

  /** The questions a quiz draws from: all of them for category 0, else those
      of the category. */
  function QuizPool(rows: seq<Question>, categoryId: int): (pool: seq<Question>)
    ensures forall q :: q in pool <==> q in rows && (categoryId == 0 || q.category == Some(categoryId))
  {
    if categoryId == 0 then rows else InCategory(rows, categoryId)
  }

  /** The request carries a body, both fields, and an `id` in `quiz_category`. */
  predicate WellFormed(body: Option<QuizBody>)
  {
    body.Some? && body.value.quizCategory.Some? && body.value.previousQuestions.Some?
    && body.value.quizCategory.value.id.Some?
  }

  /** The pool a well-formed request draws from; empty for any other. */
  function RequestPool(rows: seq<Question>, body: Option<QuizBody>): seq<Question>
  {
    if WellFormed(body) then QuizPool(rows, body.value.quizCategory.value.id.value) else []
  }

  /** `random.randint(0, len(questions) - 1)` gives an index of a non-empty pool. */
  predicate DrawInRange(rows: seq<Question>, body: Option<QuizBody>, draw: int)
  {
    RequestPool(rows, body) == [] || 0 <= draw < |RequestPool(rows, body)|
  }

  /** The chosen record after `for next_question.id in previous_questions`:
      each previous id in turn is assigned to its `id`, so the last one stays. */
  function Relabel(q: Question, previous: seq<int>): (r: Question)
    ensures r.(id := q.id) == q
    ensures previous == [] ==> r == q
    ensures previous != [] ==> r.id == previous[|previous| - 1]
  {
    if previous == [] then q else q.(id := previous[|previous| - 1])
  }

  /** What POST /quizzes answers, stated without the loop. */
  function QuizOutcome(rows: seq<Question>, body: Option<QuizBody>, draw: int): (r: Response<QuizQuestion>)
    requires DrawInRange(rows, body, draw)
    ensures r.Abort? ==> r.status == Unprocessable
    ensures r.Ok? ==> WellFormed(body) && RequestPool(rows, body) != [] &&
                      r.body.question.(id := RequestPool(rows, body)[draw].id) == RequestPool(rows, body)[draw]
  {
    if RequestPool(rows, body) == [] then Abort(Unprocessable)
    else Ok(QuizQuestion(Relabel(RequestPool(rows, body)[draw], body.value.previousQuestions.value)))
  }

  /** POST /quizzes with the random draw `draw`. Every failure happens inside
      the `try` and becomes 422: the missing-field `abort(400)`, a missing body
      or `id` key, and `randint(0, -1)` on an empty pool. */
  method PlayQuiz(rows: seq<Question>, body: Option<QuizBody>, draw: int) returns (r: Response<QuizQuestion>)
    requires DrawInRange(rows, body, draw)
    ensures r == QuizOutcome(rows, body, draw)
  {
    var attempt: Response<QuizQuestion>;
    if body.None? {
      attempt := Abort(ServerError);
    } else if body.value.quizCategory.None? || body.value.previousQuestions.None? {
      attempt := Abort(BadRequest);
    } else if body.value.quizCategory.value.id.None? {
      attempt := Abort(ServerError);
    } else {
      var questions := QuizPool(rows, body.value.quizCategory.value.id.value);
      if |questions| == 0 {
        attempt := Abort(ServerError);
      } else {
        var next := questions[draw];
        var previous := body.value.previousQuestions.value;
        for i := 0 to |previous|
          invariant next == Relabel(questions[draw], previous[..i])
        {
          next := next.(id := previous[i]);
        }
        assert previous[..|previous|] == previous;
        attempt := Ok(QuizQuestion(next));
      }
    }
    r := CatchAll(attempt, Unprocessable);
  }

  /** The quiz never answers 400: it fails with 422 exactly when the request
      is not well formed or its pool is empty. */
  lemma QuizFailures(rows: seq<Question>, body: Option<QuizBody>, draw: int)
    requires DrawInRange(rows, body, draw)
    ensures QuizOutcome(rows, body, draw).Abort? <==> !WellFormed(body) || RequestPool(rows, body) == []
    ensures QuizOutcome(rows, body, draw).Abort? ==> QuizOutcome(rows, body, draw).status == Unprocessable
  {
  }

  /** The answer is the drawn question of the pool (of the category, or of
      all questions for category 0) with every field but `id` unchanged. */
  lemma QuizDrawsFromPool(rows: seq<Question>, body: Option<QuizBody>, draw: int)
    requires DrawInRange(rows, body, draw)
    requires QuizOutcome(rows, body, draw).Ok?
    ensures var q := QuizOutcome(rows, body, draw).body.question;
            var categoryId := body.value.quizCategory.value.id.value;
            exists p :: p in rows && (categoryId == 0 || p.category == Some(categoryId)) && q == p.(id := q.id)
  {
    var p := RequestPool(rows, body)[draw];
    assert p in RequestPool(rows, body);
  }

  /** With a non-empty `previous_questions`, the answer carries its last id:
      the question returned is always reported as one already served. */
  lemma QuizReturnsPreviousId(rows: seq<Question>, body: Option<QuizBody>, draw: int)
    requires DrawInRange(rows, body, draw)
    requires QuizOutcome(rows, body, draw).Ok?
    requires body.value.previousQuestions.value != []
    ensures var previous := body.value.previousQuestions.value;
            QuizOutcome(rows, body, draw).body.question.id == previous[|previous| - 1]
    ensures QuizOutcome(rows, body, draw).body.question.id in body.value.previousQuestions.value
  {
  }

  /** `previous_questions` does not change which record is drawn: two requests
      that differ only there answer with the same record, up to its id. */
  lemma QuizIgnoresHistory(rows: seq<Question>, category: QuizCategory, prev1: seq<int>, prev2: seq<int>, draw: int)
    requires DrawInRange(rows, Some(QuizBody(Some(category), Some(prev1))), draw)
    ensures DrawInRange(rows, Some(QuizBody(Some(category), Some(prev2))), draw)
    ensures var r1 := QuizOutcome(rows, Some(QuizBody(Some(category), Some(prev1))), draw);
            var r2 := QuizOutcome(rows, Some(QuizBody(Some(category), Some(prev2))), draw);
            r1.Ok? == r2.Ok? && (r1.Ok? ==> r1.body.question.(id := 0) == r2.body.question.(id := 0))
  {
  }

  /** The pool without the questions already served, as the handler's
      description intends. */
  function UnseenPool(rows: seq<Question>, body: Option<QuizBody>): (unseen: seq<Question>)
    ensures forall q :: q in unseen <==>
              WellFormed(body) && q in RequestPool(rows, body) && q.id !in body.value.previousQuestions.value
  {
    if WellFormed(body) then
      var keep := (q: Question) => q.id !in body.value.previousQuestions.value;
      FilterMembers(RequestPool(rows, body), keep);
      Filter(RequestPool(rows, body), keep)
    else []
  }

  /** The quiz with the exclusion it was meant to have: the drawn question is
      unchanged and never one of `previous_questions`. */
  function QuizOutcomeExcluding(rows: seq<Question>, body: Option<QuizBody>, draw: int): (r: Response<QuizQuestion>)
    requires UnseenPool(rows, body) == [] || 0 <= draw < |UnseenPool(rows, body)|
    ensures r.Abort? <==> !WellFormed(body) || forall q :: q in RequestPool(rows, body) ==> q.id in body.value.previousQuestions.value
    ensures r.Abort? ==> r.status == Unprocessable
    ensures r.Ok? ==> r.body.question in RequestPool(rows, body)
    ensures r.Ok? ==> r.body.question.id !in body.value.previousQuestions.value
  {
    var unseen := UnseenPool(rows, body);
    if unseen == [] then Abort(Unprocessable)
    else
      assert unseen[draw] in unseen;
      Ok(QuizQuestion(unseen[draw]))
  }
}
