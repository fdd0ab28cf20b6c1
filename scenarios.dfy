/** The expectations of the repository's test suite, stated over its
    fixture: categories 1 "Science" and 2 "History", and two questions of
    category 1 inserted with keys 1 and 2 (the third question it builds is
    never inserted). */
module Scenarios {
  import opened Responses
  import opened Seqs
  import opened Text
  import opened Models
  import opened Flaskr
  import opened Store

  const Categories: map<int, string> := map[1 := "Science", 2 := "History"]

  const France: Question := Question(1, "What is the capital of France?", "Paris", 1, 1)
  const Sum: Question := Question(2, "What is 2+2?", "4", 1, 1)

  const Fixture: seq<Question> := [France, Sum]

  /** Page 1 at 10 per page lists both questions; page 1000 is past the end. */
  lemma ListingScenarios()
    ensures GetQuestions(Fixture, Categories, 1, 10) == Ok(Listing(Fixture, 2, Categories, CurrentCategory))
    ensures GetQuestions(Fixture, Categories, 1000, 10) == Ok(NoMorePages)
  {
    FirstPageListsLeadingRows(Fixture, Categories, 10);
    assert Fixture[..Min(10, |Fixture|)] == Fixture;
    PageOutOfRangeIntegral(1000, 10, 2);
  }

  /** "france" finds the one question about France. */
  lemma SearchScenarios()
    ensures SearchQuestions(Fixture, Some("france")) == Ok(SearchResult([France], 1))
  {
    var p := (q: Question) => ContainsIgnoreCase(q.question, "france");
    FranceMentionsFrance();
    SumDoesNotMentionFrance();
    assert p(France) && !p(Sum);
    assert Fixture == [France] + [Sum];
    FilterAppend([France], [Sum], p);
    assert Matching(Fixture, "france") == [France];
  }

  lemma FranceMentionsFrance()
    ensures ContainsIgnoreCase(France.question, "france")
  {
    var text := Lower(France.question);
    var term := Lower("france");
    assert term == "france";
    assert text[23] == 'f' && text[24] == 'r' && text[25] == 'a';
    assert text[26] == 'n' && text[27] == 'c' && text[28] == 'e';
    assert text[23..29] == term;
    assert OccursAt(term, text, 23);
  }

  lemma SumDoesNotMentionFrance()
    ensures !ContainsIgnoreCase(Sum.question, "france")
  {
    var text := Lower(Sum.question);
    assert Lower("france")[0] == 'f';
    forall k | 0 <= k < |text|
      ensures text[k] != 'f'
    {
    }
    AbsentCharRulesOutOccurrence(Lower("france"), text, 0);
  }

  lemma UpperCaseTermFolds()
    ensures Lower("FRANCE") == Lower("france")
  {
    var upper, lower := Lower("FRANCE"), Lower("france");
    assert upper[0] == lower[0] && upper[1] == lower[1] && upper[2] == lower[2];
    assert upper[3] == lower[3] && upper[4] == lower[4] && upper[5] == lower[5];
  }

  /** "FRANCE" gives the same answer as "france". */
  lemma SearchIgnoresCaseScenario()
    ensures SearchQuestions(Fixture, Some("FRANCE")) == Ok(SearchResult([France], 1))
  {
    UpperCaseTermFolds();
    SearchIgnoresCaseOfTerm(Fixture, "FRANCE", "france");
    SearchScenarios();
  }

  /** "no results" matches nothing: neither question has a letter u. */
  lemma SearchWithoutResults()
    ensures SearchQuestions(Fixture, Some("no results")) == Ok(SearchResult([], 0))
  {
    var term := Lower("no results");
    assert term[6] == 'u';
    forall k | 0 <= k < |Fixture|
      ensures !ContainsIgnoreCase(Fixture[k].question, "no results")
    {
      var text := Lower(Fixture[k].question);
      forall j | 0 <= j < |text|
        ensures text[j] != 'u'
      {
      }
      AbsentCharRulesOutOccurrence(term, text, 6);
    }
    SearchWithoutMatchIsEmpty(Fixture, "no results");
  }

  /** Category 1 holds both questions; category 100 does not exist. */
  lemma CategoryScenarios()
    ensures GetQuestionsByCategory(Fixture, Categories, 1).Ok?
    ensures |GetQuestionsByCategory(Fixture, Categories, 1).value| == 2
    ensures GetQuestionsByCategory(Fixture, Categories, 100) == Err(NotFound)
  {
  }

  /** A quiz over category 1 yields a question; after questions 1 and 2
      none is left; category 100 does not exist. */
  lemma QuizScenarios(draw: nat)
    ensures GetQuizQuestion(Fixture, Categories, QuizRequest(QuizCategory(Some(1), None), []), draw).Ok?
    ensures GetQuizQuestion(Fixture, Categories, QuizRequest(QuizCategory(Some(1), None), []), draw).value.Some?
    ensures GetQuizQuestion(Fixture, Categories, QuizRequest(QuizCategory(Some(1), None), [1, 2]), draw) == Ok(None)
    ensures GetQuizQuestion(Fixture, Categories, QuizRequest(QuizCategory(Some(100), None), []), draw) == Err(NotFound)
  {
    assert IsEligible(France, [], 1, false);
    QuizExhausted(Fixture, Categories, QuizRequest(QuizCategory(Some(1), None), [1, 2]), draw);
  }

  /** On the fixture: creating into category 100 is a 422; a complete
      body for category 1 is inserted; deleting question 100 is a 404;
      deleting question 1 answers 1. Beyond the tests: deleting question 1
      again is a 404. */
  method StoreScenario() returns (unknown: Result<int>, created: Result<int>, missing: Result<int>, first: Result<int>, second: Result<int>)
    ensures unknown == Err(UnprocessableEntity)
    ensures created == Ok(3)
    ensures missing == Err(NotFound)
    ensures first == Ok(1) && second == Err(NotFound)
  {
    var store := new QuestionStore(Categories);
    var r1 := store.CreateQuestion(Some(CreateRequest(Some(France.question), Some("Paris"), Some(1), Some(1))));
    var r2 := store.CreateQuestion(Some(CreateRequest(Some(Sum.question), Some("4"), Some(1), Some(1))));
    assert store.questions == Fixture;
    unknown := store.CreateQuestion(Some(CreateRequest(Some(France.question), Some("Paris"), Some(100), Some(1))));
    created := store.CreateQuestion(Some(CreateRequest(Some(France.question), Some("Paris"), Some(1), Some(1))));
    assert !HasId(store.questions, 100) by { assert IdsBelow(store.questions, 4); }
    missing := store.DeleteQuestion(100);
    assert HasId(store.questions, 1) by { assert store.questions[0].id == 1; }
    first := store.DeleteQuestion(1);
    second := store.DeleteQuestion(1);
  }
}
