/** The question table, seen as the sequence of its rows in insertion order,
    and the primary-key lookup the handlers perform on it. */
module Models {
  import opened Responses

  /** A row of the question table, as `Question.format()` reports it. */
  datatype Question = Question(id: int, question: string, answer: string, category: int, difficulty: int)

  /** Some row has primary key `id`. */
  predicate HasId(qs: seq<Question>, id: int)
  {
    exists k :: 0 <= k < |qs| && qs[k].id == id
  }

  /** Primary keys grow along the table: the order of an auto-incremented
      key under appends, and hence no key appears twice. */
  ghost predicate IdsIncreasing(qs: seq<Question>)
  {
    forall i, j :: 0 <= i < j < |qs| ==> qs[i].id < qs[j].id
  }

  /** Every key in the table is below `bound`. */
  ghost predicate IdsBelow(qs: seq<Question>, bound: int)
  {
    forall k :: 0 <= k < |qs| ==> qs[k].id < bound
  }

  /** `Question.query.filter(Question.id == id).one_or_none()`: the position
      of the row with key `id`, or None when there is none. */
  method FindQuestion(qs: seq<Question>, id: int) returns (pos: Option<nat>)
    requires IdsIncreasing(qs)
    ensures pos.None? <==> !HasId(qs, id)
    ensures pos.Some? ==> pos.value < |qs| && qs[pos.value].id == id
    ensures pos.Some? ==> forall k :: 0 <= k < |qs| && k != pos.value ==> qs[k].id != id
  {
    var k := 0;
    while k < |qs|
      invariant 0 <= k <= |qs|
      invariant forall j :: 0 <= j < k ==> qs[j].id != id
    {
      if qs[k].id == id {
        return Some(k);
      }
      k := k + 1;
    }
    return None;
  }
}
