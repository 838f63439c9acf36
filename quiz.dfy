/** Quiz play: the pool of `quizzes` and the rejection-sampling loop of
    `get_rondom_question`. `random.randint` is replaced by an oracle: the
    sequence `draws` of the values it returns, in order. */
module Quiz {
  import opened Store

  /** Category id 0 stands for "all categories". */
  const AllCategories: Id := 0

  /** `Question.query.all()` when `catid == 0`, otherwise
      `Question.query.filter(Question.category == catid).all()`. */
  function QuizPool(table: seq<Question>, catid: Id): (pool: seq<Question>)
    ensures catid == AllCategories ==> pool == table
    ensures catid != AllCategories ==> forall q :: q in pool <==> q in table && q.category == catid
    ensures catid != AllCategories ==> forall q :: multiset(pool)[q] == if q.category == catid then multiset(table)[q] else 0
  {
    if catid == AllCategories then table else QuestionsInCategory(table, catid)
  }

  /** Every draw is a value `randint(0, n - 1)` can return. */
  predicate DrawsInRange(draws: seq<nat>, n: nat) {
    forall k :: 0 <= k < |draws| ==> draws[k] < n
  }

  /** How a call of `get_rondom_question` ends.
      Picked: the question returned; Exhausted: the `None` of the `break`;
      RandintRaised: the pool is empty and `randint(0, -1)` raises;
      OutOfDraws: the loop wanted more draws than the oracle holds. */
  datatype Pick<T> = Picked(question: T) | Exhausted | RandintRaised | OutOfDraws

  /** The draw at position `k` hits a question whose id was already served. */
  predicate Seen<T>(questions: seq<T>, idOf: T -> Id, previous: seq<Id>, draws: seq<nat>, k: nat)
    requires DrawsInRange(draws, |questions|) && k < |draws|
  {
    idOf(questions[draws[k]]) in previous
  }

  /** Position of the first draw at or after `from` that hits an unseen
      question, or `|draws|` when there is none. */
  function FirstUnseen<T>(questions: seq<T>, idOf: T -> Id, previous: seq<Id>, draws: seq<nat>, from: nat): (j: nat)
    requires DrawsInRange(draws, |questions|) && from <= |draws|
    ensures from <= j <= |draws|
    ensures j < |draws| ==> !Seen(questions, idOf, previous, draws, j)
    ensures forall k :: from <= k < j ==> Seen(questions, idOf, previous, draws, k)
    decreases |draws| - from
  {
    if from == |draws| then from
    else if !Seen(questions, idOf, previous, draws, from) then from
    else FirstUnseen(questions, idOf, previous, draws, from + 1)
  }

  /** What `get_rondom_question` does, stated draw by draw rather than as a
      loop. An unseen first draw is returned without looking at the lengths.
      After a seen first draw, equal lengths of `previousQuestions` and the
      pool cost exactly one more draw and then give `None`, whatever that
      draw hit; unequal lengths keep drawing until an unseen question turns up. */
  function PickOutcome<T>(questions: seq<T>, idOf: T -> Id, previous: seq<Id>, draws: seq<nat>): (r: Pick<T>)
    requires DrawsInRange(draws, |questions|)
    ensures r.RandintRaised? <==> |questions| == 0
    ensures r.Picked? ==> idOf(r.question) !in previous
    ensures r.Picked? ==> exists k :: 0 <= k < |draws| && r.question == questions[draws[k]]
    ensures r.Exhausted? ==> |previous| == |questions| && 2 <= |draws|
  {
    if |questions| == 0 then RandintRaised
    else if |draws| == 0 then OutOfDraws
    else if !Seen(questions, idOf, previous, draws, 0) then Picked(questions[draws[0]])
    else if |previous| == |questions| then (if 2 <= |draws| then Exhausted else OutOfDraws)
    else
      var j := FirstUnseen(questions, idOf, previous, draws, 1);
      if j < |draws| then Picked(questions[draws[j]]) else OutOfDraws
  }

  /** `get_rondom_question(questions, previousQuestions)`, with `idOf` for
      `question['id']` and `draws` for the successive results of `randint`. */
  method GetRandomQuestion<T>(questions: seq<T>, idOf: T -> Id, previousQuestions: seq<Id>, draws: seq<nat>)
    returns (r: Pick<T>)
    requires DrawsInRange(draws, |questions|)
    ensures r == PickOutcome(questions, idOf, previousQuestions, draws)
  {
    if |questions| == 0 {
      return RandintRaised;
    }
    if |draws| == 0 {
      return OutOfDraws;
    }
    var question := questions[draws[0]];
    var used := 1;
    while idOf(question) in previousQuestions
      invariant 1 <= used <= |draws|
      invariant question == questions[draws[used - 1]]
      invariant forall k :: 0 <= k < used - 1 ==> Seen(questions, idOf, previousQuestions, draws, k)
      invariant 1 < used ==> |previousQuestions| != |questions|
      decreases |draws| - used
    {
      if used == |draws| {
        return OutOfDraws;
      }
      question := questions[draws[used]];
      used := used + 1;
      if |previousQuestions| == |questions| {
        return Exhausted;
      }
    }
    if 1 < used {
      var j := FirstUnseen(questions, idOf, previousQuestions, draws, 1);
      assert !Seen(questions, idOf, previousQuestions, draws, used - 1);
      assert j == used - 1;
    }
    return Picked(question);
  }

  /** The loop can run forever: when every pool id has been served but
      `previousQuestions` is not exactly as long as the pool (it holds a
      duplicate, or an id from outside the pool), no sequence of draws,
      however long, ends the call. */
  lemma NeverEndsWhenAllSeenButLengthsDiffer<T>(questions: seq<T>, idOf: T -> Id,
                                                 previous: seq<Id>, draws: seq<nat>)
    requires DrawsInRange(draws, |questions|)
    requires 0 < |questions|
    requires forall i :: 0 <= i < |questions| ==> idOf(questions[i]) in previous
    requires |previous| != |questions|
    ensures PickOutcome(questions, idOf, previous, draws) == OutOfDraws
  {
  }

  /** The other side of the length test: with equal lengths and a seen first
      draw the call returns `None` even when the one redraw hits a question
      that was never served. Pool ids 1 and 2 with `previousQuestions == [1, 1]`
      and draws 0 then 1 show it. */
  lemma ExhaustedDiscardsUnseenRedraw()
    ensures var pool := [Question(1, "", "", 1, 1), Question(2, "", "", 1, 1)];
      var idOf := (q: Question) => q.id;
      idOf(pool[1]) !in [1, 1] && PickOutcome(pool, idOf, [1, 1], [0, 1]) == Exhausted
  {
  }

  /** When every question id in the pool is distinct, `previousQuestions` has
      no duplicate and holds only pool ids, the length test means exactly
      "every pool question has been served". */
  lemma {:induction false} LengthTestSoundForWellFormedSession<T>(questions: seq<T>, idOf: T -> Id, previous: seq<Id>)
    requires forall i, j :: 0 <= i < j < |questions| ==> idOf(questions[i]) != idOf(questions[j])
    requires forall i, j :: 0 <= i < j < |previous| ==> previous[i] != previous[j]
    requires forall x :: x in previous ==> exists i :: 0 <= i < |questions| && idOf(questions[i]) == x
    ensures |previous| == |questions| <==> forall i :: 0 <= i < |questions| ==> idOf(questions[i]) in previous
  {
    var poolIds := seq(|questions|, i requires 0 <= i < |questions| => idOf(questions[i]));
    DistinctCardinality(poolIds);
    DistinctCardinality(previous);
    var P := set x | x in poolIds;
    var S := set x | x in previous;
    forall x | x in S ensures x in P {
      var i :| 0 <= i < |questions| && idOf(questions[i]) == x;
      assert poolIds[i] == x;
    }
    if |previous| == |questions| {
      SubsetOfSameSize(S, P);
      forall i | 0 <= i < |questions| ensures idOf(questions[i]) in previous {
        assert poolIds[i] in P;
      }
    }
    if forall i :: 0 <= i < |questions| ==> idOf(questions[i]) in previous {
      forall x | x in P ensures x in S {
        var i :| 0 <= i < |poolIds| && poolIds[i] == x;
        assert idOf(questions[i]) in previous;
      }
      assert S == P;
    }
  }

  /** In a well-formed session (as above, with a non-empty pool) the picker
      behaves as intended: once everything has been served it stops with
      `None` after exactly two draws, and otherwise it never gives `None`, so
      no unseen question is ever thrown away. */
  lemma {:induction false} WellFormedSessionPicksOrExhausts<T>(questions: seq<T>, idOf: T -> Id,
                                                               previous: seq<Id>, draws: seq<nat>)
    requires DrawsInRange(draws, |questions|) && 0 < |questions|
    requires forall i, j :: 0 <= i < j < |questions| ==> idOf(questions[i]) != idOf(questions[j])
    requires forall i, j :: 0 <= i < j < |previous| ==> previous[i] != previous[j]
    requires forall x :: x in previous ==> exists i :: 0 <= i < |questions| && idOf(questions[i]) == x
    ensures (forall i :: 0 <= i < |questions| ==> idOf(questions[i]) in previous) && 2 <= |draws| ==>
              PickOutcome(questions, idOf, previous, draws) == Exhausted
    ensures (exists i :: 0 <= i < |questions| && idOf(questions[i]) !in previous) ==>
              PickOutcome(questions, idOf, previous, draws) != Exhausted
  {
    LengthTestSoundForWellFormedSession(questions, idOf, previous);
    if forall i :: 0 <= i < |questions| ==> idOf(questions[i]) in previous {
      if 2 <= |draws| {
        assert Seen(questions, idOf, previous, draws, 0);
      }
    }
  }

  /** A sequence without duplicates has as many distinct elements as entries. */
  lemma {:induction false} DistinctCardinality(s: seq<Id>)
    requires forall i, j :: 0 <= i < j < |s| ==> s[i] != s[j]
    ensures |set x | x in s| == |s|
  {
    if |s| > 0 {
      var rest := s[1..];
      DistinctCardinality(rest);
      assert (set x | x in s) == (set x | x in rest) + {s[0]};
      assert s[0] !in rest;
    }
  }

  /** A subset as large as its superset is the whole superset. */
  lemma SubsetOfSameSize(a: set<Id>, b: set<Id>)
    requires a <= b && |a| == |b|
    ensures a == b
  {
    assert b == a + (b - a);
    assert a !! (b - a);
    assert |b| == |a| + |b - a|;
  }
}
