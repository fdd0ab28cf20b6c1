/** The two handlers that change the question table, `delete_question` and
    `create_question`, as methods on an in-memory store. */
module Store {
  import opened Responses
  import opened Seqs
  import opened Models
  import opened Flaskr

  /** The table without the row(s) whose key is `id`, others in order. */
  function WithoutId(qs: seq<Question>, id: int): seq<Question>
  {
    Filter(qs, (q: Question) => q.id != id)
  }

  /** Removing the row at position `i` of a table whose keys increase is
      removing every row with its key. */
  lemma {:induction false} RemoveAtIsWithoutId(qs: seq<Question>, i: nat)
    requires IdsIncreasing(qs) && i < |qs|
    ensures qs[..i] + qs[i + 1..] == WithoutId(qs, qs[i].id)
  {
    var id := qs[i].id;
    var p := (q: Question) => q.id != id;
    assert qs == qs[..i] + ([qs[i]] + qs[i + 1..]);
    FilterAppend(qs[..i], [qs[i]] + qs[i + 1..], p);
    FilterAppend([qs[i]], qs[i + 1..], p);
    FilterKeepsAll(qs[..i], p);
    FilterKeepsAll(qs[i + 1..], p);
  }

  /** Dropping rows keeps keys increasing and below the same bound. */
  lemma {:induction false} WithoutIdKeepsKeyOrder(qs: seq<Question>, id: int, bound: int)
    requires IdsIncreasing(qs) && IdsBelow(qs, bound)
    ensures IdsIncreasing(WithoutId(qs, id)) && IdsBelow(WithoutId(qs, id), bound)
  {
    if qs != [] {
      WithoutIdKeepsKeyOrder(qs[1..], id, bound);
      var rest := WithoutId(qs[1..], id);
      forall k | 0 <= k < |rest|
        ensures qs[0].id < rest[k].id
      {
        assert rest[k] in qs[1..];
      }
    }
  }

  /** A table of questions and the map of categories, with the next value
      of the question key's sequence. */
  class QuestionStore {
    var questions: seq<Question>
    var categories: map<int, string>
    var nextId: int

    /** Keys are issued in increasing order and never reissued. */
    ghost predicate Valid()
      reads this
    {
      IdsIncreasing(questions) && IdsBelow(questions, nextId)
    }

    /** An empty question table over the given categories; keys start at 1. */
    constructor (categories: map<int, string>)
      ensures Valid()
      ensures this.questions == [] && this.categories == categories && nextId == 1
    {
      this.questions := [];
      this.categories := categories;
      this.nextId := 1;
    }

    /** `delete_question`: 404 when no row has the key, the table left as it
        was; otherwise exactly that row is removed, the others kept in
        order, and the key is returned as `deleted`. */
    method DeleteQuestion(questionId: int) returns (r: Result<int>)
      requires Valid()
      modifies this
      ensures Valid()
      ensures categories == old(categories) && nextId == old(nextId)
      ensures !old(HasId(questions, questionId)) ==> r == Err(NotFound) && questions == old(questions)
      ensures old(HasId(questions, questionId)) ==>
                && r == Ok(questionId)
                && questions == WithoutId(old(questions), questionId)
                && |questions| == |old(questions)| - 1
      ensures !HasId(questions, questionId)
    {
      var pos := FindQuestion(questions, questionId);
      match pos
      case None =>
        r := Err(NotFound);
      case Some(i) =>
        RemoveAtIsWithoutId(questions, i);
        WithoutIdKeepsKeyOrder(questions, questionId, nextId);
        questions := questions[..i] + questions[i + 1..];
        r := Ok(questionId);
    }

    /** `create_question`: the ordered checks of ValidateCreate, with the
        table untouched on failure; on success one row with the given
        fields and a fresh key is appended and its key is returned as
        `created`. */
    method CreateQuestion(body: Option<CreateRequest>) returns (r: Result<int>)
      requires Valid()
      modifies this
      ensures Valid()
      ensures categories == old(categories)
      ensures ValidateCreate(body, categories).Err? ==>
                && r == Err(ValidateCreate(body, categories).failure)
                && questions == old(questions) && nextId == old(nextId)
      ensures ValidateCreate(body, categories).Ok? ==>
                var n := ValidateCreate(body, categories).value;
                && r == Ok(old(nextId))
                && !HasId(old(questions), old(nextId))
                && questions == old(questions) + [Question(old(nextId), n.question, n.answer, n.category, n.difficulty)]
                && nextId == old(nextId) + 1
    {
      var checked := ValidateCreate(body, categories);
      if checked.Err? {
        r := Err(checked.failure);
        return;
      }
      var n := checked.value;
      questions := questions + [Question(nextId, n.question, n.answer, n.category, n.difficulty)];
      r := Ok(nextId);
      nextId := nextId + 1;
    }
  }

  /** A second delete of the same key is a 404. */
  method DeleteTwice(store: QuestionStore, questionId: int) returns (first: Result<int>, second: Result<int>)
    requires store.Valid()
    modifies store
    ensures first == Ok(questionId) <==> old(HasId(store.questions, questionId))
    ensures second == Err(NotFound)
  {
    first := store.DeleteQuestion(questionId);
    second := store.DeleteQuestion(questionId);
  }
}
