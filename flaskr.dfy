/** The read-only route handlers of the trivia API and the validation step
    of question creation, as functions of the store's contents: the
    question rows in insertion order and the category map {id: type}. */
module Flaskr {
  import opened Responses
  import opened Seqs
  import opened Text
  import opened Models

  /** The `current_category` the listing always reports. */
  const CurrentCategory: string := "Science"

  // ---------------------------------------------------------------------
  // GET /questions?page=&per_page=

  /** Payload of the listing: either the "no more pages" answer, which has
      an empty question list and a total of 0 and nothing else, or a page. */
  datatype QuestionList =
    | NoMorePages
    | Listing(questions: seq<Question>, totalQuestions: int, categories: map<int, string>, currentCategory: string)

  /** The handler's range test, with Python's true division: a page is out
      of range when it exceeds total / per_page, or 1 when the whole table
      fits within one page. */
  predicate PageOutOfRange(page: int, perPage: int, total: nat)
    requires perPage > 0
    ensures PageOutOfRange(page, perPage, total) ==> page > 1
  {
    page as real > (if total > perPage then total as real / perPage as real else 1 as real)
  }

  /** The same test without division. */
  lemma PageOutOfRangeIntegral(page: int, perPage: int, total: nat)
    requires perPage > 0
    ensures PageOutOfRange(page, perPage, total) <==>
            if total > perPage then page * perPage > total else page > 1
  {
    if total > perPage {
      var x := total as real / perPage as real;
      assert x * perPage as real == total as real;
      assert (page * perPage) as real == page as real * perPage as real;
      if page as real > x {
        assert page as real * perPage as real > x * perPage as real;
      }
      if page * perPage > total {
        assert page as real * perPage as real > x * perPage as real;
      }
    }
  }

  /** The number of the last page that holds questions (1 for an empty or
      single-page table): total / per_page rounded up. */
  function LastPage(total: nat, perPage: int): (n: int)
    requires perPage > 0
    ensures n >= 1
    ensures total > 0 ==> (n - 1) * perPage < total <= n * perPage
  {
    if total <= perPage then 1
    else
      var n := if total % perPage == 0 then total / perPage else total / perPage + 1;
      assert total == (total / perPage) * perPage + total % perPage;
      assert (n - 1) * perPage == n * perPage - perPage;
      n
  }

  /** What the range test rejects, against the page count: every page past
      the last one, and also the last page itself when it is a partial page
      of a table that spans more than one page. */
  lemma {:induction false} PageOutOfRangeVersusLastPage(page: int, perPage: int, total: nat)
    requires perPage > 0
    ensures PageOutOfRange(page, perPage, total) <==>
            page > LastPage(total, perPage) ||
            (page == LastPage(total, perPage) && total > perPage && total % perPage != 0)
  {
    PageOutOfRangeIntegral(page, perPage, total);
    if total > perPage {
      var q, m := total / perPage, total % perPage;
      assert total == q * perPage + m;
      if page <= q {
        MulMonotone(page, q, perPage);
      } else {
        MulMonotone(q + 1, page, perPage);
        assert (q + 1) * perPage == q * perPage + perPage;
      }
    }
  }

  lemma MulMonotone(a: int, b: int, c: int)
    requires a <= b && c > 0
    ensures a * c <= b * c
  {
  }

  /** A page that passes the range test and is at least 1 starts inside the
      table (or at 0 for an empty table), so the page slice is never empty
      when the table is not. */
  lemma PageStartInRange(page: int, perPage: int, total: nat)
    requires perPage > 0 && page >= 1 && !PageOutOfRange(page, perPage, total)
    ensures 0 <= (page - 1) * perPage <= total
    ensures total > 0 ==> (page - 1) * perPage < total
  {
    PageOutOfRangeIntegral(page, perPage, total);
    MulMonotone(0, page - 1, perPage);
    assert (page - 1) * perPage == page * perPage - perPage;
  }

  /** `get_questions`: the range test first; a page below 1 that passes it
      reaches the pagination library, whose refusal ends in the handler's
      catch-all 500; otherwise rows (page-1)*per_page up to page*per_page
      in store order, with the unfiltered total and the category map. */
  function GetQuestions(qs: seq<Question>, categories: map<int, string>, page: int, perPage: int): (r: Result<QuestionList>)
    requires perPage > 0
    ensures r.Ok? && r.value.NoMorePages? <==> PageOutOfRange(page, perPage, |qs|)
    ensures r.Err? <==> !PageOutOfRange(page, perPage, |qs|) && page < 1
    ensures r.Err? ==> r.failure == InternalError
    ensures r.Ok? && r.value.Listing? ==>
              && r.value.totalQuestions == |qs|
              && r.value.categories == categories
              && r.value.currentCategory == CurrentCategory
              && 0 <= (page - 1) * perPage <= |qs|
              && |r.value.questions| == Min(perPage, |qs| - (page - 1) * perPage)
              && (|qs| > 0 ==> |r.value.questions| > 0)
              && forall k :: 0 <= k < |r.value.questions| ==>
                   r.value.questions[k] == qs[(page - 1) * perPage + k]
  {
    if PageOutOfRange(page, perPage, |qs|) then Ok(NoMorePages)
    else if page < 1 then Err(InternalError)
    else
      PageStartInRange(page, perPage, |qs|);
      var lo := (page - 1) * perPage;
      var hi := lo + Min(perPage, |qs| - lo);
      Ok(Listing(qs[lo..hi], |qs|, categories, CurrentCategory))
  }

  /** `request.args.get(name, default, type=int)`: an argument that is
      absent or not an integer (None here) takes the default. */
  function ArgOrDefault(arg: Option<int>, default: int): int
  {
    match arg
    case Some(v) => v
    case None => default
  }

  /** The route with its query-string arguments: `page` defaults to 1 and
      `per_page` to 10. Without a page argument the answer is the first
      page at the given or default size; otherwise it is the page asked
      for, at the given or default size. */
  function ListQuestions(qs: seq<Question>, categories: map<int, string>, pageArg: Option<int>, perPageArg: Option<int>): (r: Result<QuestionList>)
    requires perPageArg.Some? ==> perPageArg.value > 0
    ensures pageArg.None? ==> r.Ok? && r.value.Listing? && r.value.totalQuestions == |qs|
    ensures pageArg.None? && perPageArg.None? ==>
              r == Ok(Listing(qs[..Min(10, |qs|)], |qs|, categories, CurrentCategory))
    ensures pageArg.None? && perPageArg.Some? ==>
              r == Ok(Listing(qs[..Min(perPageArg.value, |qs|)], |qs|, categories, CurrentCategory))
    ensures pageArg.Some? && perPageArg.None? ==>
              (r.Ok? && r.value.NoMorePages? <==> PageOutOfRange(pageArg.value, 10, |qs|))
    ensures pageArg.Some? && perPageArg.None? ==> r == GetQuestions(qs, categories, pageArg.value, 10)
    ensures pageArg.Some? && perPageArg.Some? ==> r == GetQuestions(qs, categories, pageArg.value, perPageArg.value)
  {
    var page := ArgOrDefault(pageArg, 1);
    var perPage := ArgOrDefault(perPageArg, 10);
    FirstPageListsLeadingRows(qs, categories, perPage);
    GetQuestions(qs, categories, page, perPage)
  }

  function Min(a: int, b: int): int
  {
    if a <= b then a else b
  }

  /** Page 1 is never out of range: it lists the leading rows of the table. */
  lemma FirstPageListsLeadingRows(qs: seq<Question>, categories: map<int, string>, perPage: int)
    requires perPage > 0
    ensures GetQuestions(qs, categories, 1, perPage) ==
            Ok(Listing(qs[..Min(perPage, |qs|)], |qs|, categories, CurrentCategory))
  {
    PageOutOfRangeIntegral(1, perPage, |qs|);
  }

  /** With 25 rows at 10 per page, page 3 would hold rows 21 to 25, yet it
      is answered as "no more pages". */
  lemma PartialLastPageDropped(qs: seq<Question>, categories: map<int, string>)
    requires |qs| == 25
    ensures LastPage(|qs|, 10) == 3
    ensures GetQuestions(qs, categories, 3, 10) == Ok(NoMorePages)
  {
    PageOutOfRangeIntegral(3, 10, 25);
  }

  // ---------------------------------------------------------------------
  // POST /questions/search {"searchTerm": ...}

  datatype SearchResult = SearchResult(questions: seq<Question>, totalQuestions: int)

  /** The rows whose question text contains `term`, ignoring case. */
  function Matching(qs: seq<Question>, term: string): seq<Question>
  {
    Filter(qs, (q: Question) => ContainsIgnoreCase(q.question, term))
  }

  /** `questions_search`: 400 without a search term, otherwise every row
      whose text contains the term case-insensitively, with their count. */
  function SearchQuestions(qs: seq<Question>, searchTerm: Option<string>): (r: Result<SearchResult>)
    ensures r.Err? <==> searchTerm.None?
    ensures r.Err? ==> r.failure == Abort(400)
    ensures r.Ok? ==> r.value.totalQuestions == |r.value.questions|
    ensures r.Ok? ==> forall q :: q in r.value.questions <==>
                        q in qs && OccursIn(Lower(searchTerm.value), Lower(q.question))
  {
    match searchTerm
    case None => Err(Abort(400))
    case Some(term) =>
      var found := Matching(qs, term);
      Ok(SearchResult(found, |found|))
  }

  /** Search results come in store order, each matching row as often as
      it is stored. */
  lemma SearchKeepsStoreOrder(qs: seq<Question>, term: string)
    ensures SearchQuestions(qs, Some(term)).Ok?
    ensures IsSubsequence(SearchQuestions(qs, Some(term)).value.questions, qs)
    ensures forall q :: multiset(SearchQuestions(qs, Some(term)).value.questions)[q] ==
                        if ContainsIgnoreCase(q.question, term) then multiset(qs)[q] else 0
  {
    FilterIsSubsequence(qs, (q: Question) => ContainsIgnoreCase(q.question, term));
    FilterMultiplicity(qs, (q: Question) => ContainsIgnoreCase(q.question, term));
  }

  /** Terms that differ only in letter case give the same answer. */
  lemma SearchIgnoresCaseOfTerm(qs: seq<Question>, t1: string, t2: string)
    requires Lower(t1) == Lower(t2)
    ensures SearchQuestions(qs, Some(t1)) == SearchQuestions(qs, Some(t2))
  {
    FilterExtensional(qs, (q: Question) => ContainsIgnoreCase(q.question, t1),
                          (q: Question) => ContainsIgnoreCase(q.question, t2));
  }

  /** Searching for the lower-case form of a term is searching for the term. */
  lemma SearchForFoldedTerm(qs: seq<Question>, term: string)
    ensures SearchQuestions(qs, Some(Lower(term))) == SearchQuestions(qs, Some(term))
  {
    LowerIdempotent(term);
    SearchIgnoresCaseOfTerm(qs, Lower(term), term);
  }

  /** A term no row contains gives an empty list and a total of 0. */
  lemma SearchWithoutMatchIsEmpty(qs: seq<Question>, term: string)
    requires forall k :: 0 <= k < |qs| ==> !ContainsIgnoreCase(qs[k].question, term)
    ensures SearchQuestions(qs, Some(term)) == Ok(SearchResult([], 0))
  {
    FilterKeepsNone(qs, (q: Question) => ContainsIgnoreCase(q.question, term));
  }

  // ---------------------------------------------------------------------
  // GET /categories/<category_id>/questions

  /** The rows filed under category `categoryId`. */
  function InCategory(qs: seq<Question>, categoryId: int): seq<Question>
  {
    Filter(qs, (q: Question) => q.category == categoryId)
  }

  /** `get_questions_by_category`: 404 for an unknown category, otherwise
      every row whose category is that id. */
  function GetQuestionsByCategory(qs: seq<Question>, categories: map<int, string>, categoryId: int): (r: Result<seq<Question>>)
    ensures r.Err? <==> categoryId !in categories
    ensures r.Err? ==> r.failure == NotFound
    ensures r.Ok? ==> forall q :: q in r.value <==> q in qs && q.category == categoryId
  {
    if categoryId !in categories then Err(NotFound)
    else Ok(InCategory(qs, categoryId))
  }

  /** The rows of a category come in store order, each as often as it is
      stored. */
  lemma ByCategoryKeepsStoreOrder(qs: seq<Question>, categories: map<int, string>, categoryId: int)
    requires categoryId in categories
    ensures GetQuestionsByCategory(qs, categories, categoryId).Ok?
    ensures IsSubsequence(GetQuestionsByCategory(qs, categories, categoryId).value, qs)
    ensures forall q :: multiset(GetQuestionsByCategory(qs, categories, categoryId).value)[q] ==
                        if q.category == categoryId then multiset(qs)[q] else 0
  {
    FilterIsSubsequence(qs, (q: Question) => q.category == categoryId);
    FilterMultiplicity(qs, (q: Question) => q.category == categoryId);
  }

  // ---------------------------------------------------------------------
  // POST /questions (validation; the insert is QuestionStore.CreateQuestion)

  /** The JSON body's fields, each absent or present. */
  datatype CreateRequest = CreateRequest(question: Option<string>, answer: Option<string>, category: Option<int>, difficulty: Option<int>)

  /** A validated body: the fields of the row to insert. */
  datatype NewQuestion = NewQuestion(question: string, answer: string, category: int, difficulty: int)

  predicate HasAllFields(b: CreateRequest)
  {
    b.question.Some? && b.answer.Some? && b.category.Some? && b.difficulty.Some?
  }

  /** The checks `create_question` makes before inserting, in their order:
      no body or a missing field is a 400, whatever the category; only a
      complete body naming an unknown category is a 422. */
  function ValidateCreate(body: Option<CreateRequest>, categories: map<int, string>): (r: Result<NewQuestion>)
    ensures r == Err(BadRequest) <==> body.None? || !HasAllFields(body.value)
    ensures r == Err(UnprocessableEntity) <==>
              body.Some? && HasAllFields(body.value) && body.value.category.value !in categories
    ensures r.Err? ==> r == Err(BadRequest) || r == Err(UnprocessableEntity)
    ensures r.Ok? ==> body.Some? && HasAllFields(body.value)
                      && r.value == NewQuestion(body.value.question.value, body.value.answer.value,
                                                body.value.category.value, body.value.difficulty.value)
                      && r.value.category in categories
  {
    match body
    case None => Err(BadRequest)
    case Some(b) =>
      if b.question.None? || b.answer.None? || b.category.None? || b.difficulty.None? then Err(BadRequest)
      else if b.category.value !in categories then Err(UnprocessableEntity)
      else Ok(NewQuestion(b.question.value, b.answer.value, b.category.value, b.difficulty.value))
  }

  // ---------------------------------------------------------------------
  // POST /quizzes {"quiz_category": {"id", "type"}, "previous_questions": [...]}

  /** The `quiz_category` object: its `id` and `type` may each be absent. */
  datatype QuizCategory = QuizCategory(id: Option<int>, categoryType: Option<string>)

  datatype QuizRequest = QuizRequest(quizCategory: QuizCategory, previousQuestions: seq<int>)

  predicate IsAll(c: QuizCategory)
  {
    c.categoryType == Some("ALL")
  }

  /** The filters of the quiz query: the row was not asked before and, for
      type "ALL" only, its category differs from the given id. */
  predicate IsEligible(q: Question, previous: seq<int>, categoryId: int, all: bool)
  {
    q.id !in previous && (all ==> q.category != categoryId)
  }

  function EligibleQuestions(qs: seq<Question>, previous: seq<int>, categoryId: int, all: bool): (e: seq<Question>)
    ensures forall q :: q in e <==> q in qs && q.id !in previous && (all ==> q.category != categoryId)
    ensures !all ==> forall q :: q in e <==> q in qs && q.id !in previous
  {
    Filter(qs, (q: Question) => IsEligible(q, previous, categoryId, all))
  }

  /** The index `random.randint(0, n - 1)` yields, drawn from `draw`. */
  function PickIndex(draw: nat, n: nat): (i: nat)
    requires n > 0
    ensures i < n
    ensures draw < n ==> i == draw
  {
    draw % n
  }

  /** `get_quizz_questions`: a missing id is a 404; for a type other than
      "ALL" (an absent type included) an unknown category is a 404; then
      no eligible row gives no question, and otherwise the eligible row
      the random draw picks. */
  function GetQuizQuestion(qs: seq<Question>, categories: map<int, string>, req: QuizRequest, draw: nat): (r: Result<Option<Question>>)
    ensures r.Err? <==> req.quizCategory.id.None? ||
                        (!IsAll(req.quizCategory) && req.quizCategory.id.value !in categories)
    ensures r.Err? ==> r.failure == NotFound
    ensures r.Ok? ==> (r.value.None? <==>
                       forall q :: q in qs ==>
                         !IsEligible(q, req.previousQuestions, req.quizCategory.id.value, IsAll(req.quizCategory)))
    ensures r.Ok? && r.value.Some? ==>
              && r.value.value in qs
              && r.value.value.id !in req.previousQuestions
              && (IsAll(req.quizCategory) ==> r.value.value.category != req.quizCategory.id.value)
  {
    match req.quizCategory.id
    case None => Err(NotFound)
    case Some(categoryId) =>
      var all := IsAll(req.quizCategory);
      if !all && categoryId !in categories then Err(NotFound)
      else
        var eligible := EligibleQuestions(qs, req.previousQuestions, categoryId, all);
        if |eligible| == 0 then Ok(None)
        else Ok(Some(eligible[PickIndex(draw, |eligible|)]))
  }

  /** Every eligible row is the answer for some draw. */
  lemma QuizCanPickAnyEligible(qs: seq<Question>, categories: map<int, string>, req: QuizRequest, q: Question)
    requires GetQuizQuestion(qs, categories, req, 0).Ok?
    requires q in qs && IsEligible(q, req.previousQuestions, req.quizCategory.id.value, IsAll(req.quizCategory))
    ensures exists draw: nat :: GetQuizQuestion(qs, categories, req, draw) == Ok(Some(q))
  {
    var eligible := EligibleQuestions(qs, req.previousQuestions, req.quizCategory.id.value, IsAll(req.quizCategory));
    var i :| 0 <= i < |eligible| && eligible[i] == q;
    assert GetQuizQuestion(qs, categories, req, i) == Ok(Some(q));
  }

  /** For a type other than "ALL" the category id is only checked for
      existence: any two existing ids give the same answer. */
  lemma QuizIgnoresCategoryUnlessAll(qs: seq<Question>, categories: map<int, string>, req: QuizRequest, otherId: int, draw: nat)
    requires !IsAll(req.quizCategory)
    requires req.quizCategory.id.Some? && req.quizCategory.id.value in categories
    requires otherId in categories
    ensures GetQuizQuestion(qs, categories, req, draw) ==
            GetQuizQuestion(qs, categories, req.(quizCategory := req.quizCategory.(id := Some(otherId))), draw)
  {
    var prev := req.previousQuestions;
    var c := req.quizCategory.id.value;
    FilterExtensional(qs, (q: Question) => IsEligible(q, prev, c, false),
                          (q: Question) => IsEligible(q, prev, otherId, false));
  }

  /** Once every row has been asked, there is no question left, whatever
      the category and the draw. */
  lemma QuizExhausted(qs: seq<Question>, categories: map<int, string>, req: QuizRequest, draw: nat)
    requires req.quizCategory.id.Some?
    requires IsAll(req.quizCategory) || req.quizCategory.id.value in categories
    requires forall k :: 0 <= k < |qs| ==> qs[k].id in req.previousQuestions
    ensures GetQuizQuestion(qs, categories, req, draw) == Ok(None)
  {
  }
}
