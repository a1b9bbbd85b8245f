/**
 * Next-question selection of `get_quiz_question`. The source draws a random
 * candidate, and while the drawn question's id is in `previous_questions` it
 * draws again, ending the quiz when `len(previous_questions) == len(questions)`.
 *
 * Randomness is made explicit: `draws` is the sequence of indices that
 * `random.randrange` returns, so every finite run of the loop is a value of
 * `RejectionLoop`. `NextQuestion` is the selection the loop is meant to make:
 * any unseen candidate, or none once every candidate has been seen.
 */
module Quiz {
  import opened Wrappers
  import opened Records

  /** The question pool: every question for category 0, else that category's questions. */
  function Candidates(qs: seq<Question>, categoryId: int): (r: seq<Question>)
    ensures categoryId == 0 ==> r == qs
    ensures categoryId != 0 ==> forall q :: q in r <==> q in qs && q.category == categoryId
    ensures categoryId != 0 ==>
              forall q :: multiset(r)[q] == if q.category == categoryId then multiset(qs)[q] else 0
    ensures UniqueQuestionIds(qs) ==> UniqueQuestionIds(r)
  {
    if categoryId == 0 then qs else InCategory(qs, categoryId)
  }

  /** Some candidate's id is not among the previously served ids. */
  predicate HasUnseen(cands: seq<Question>, previous: seq<int>)
  {
    exists i :: 0 <= i < |cands| && cands[i].id !in previous
  }

  /** Every draw is a valid result of `random.randrange(0, len(cands))`. */
  predicate ValidDraws(cands: seq<Question>, draws: seq<nat>)
  {
    forall i :: 0 <= i < |draws| ==> draws[i] < |cands|
  }

  datatype LoopOutcome =
    | Served(question: Question)  // the loop returned this question
    | QuizOver                    // the loop returned the response without a question
    | StillDrawing                // the draws ran out while the loop was still looking
    | RangeError                  // `randrange(0, 0)` raised: there is no candidate

  /** The first `n` draws all picked questions served before. */
  predicate SeenDraws(cands: seq<Question>, previous: seq<int>, draws: seq<nat>, n: nat)
    requires ValidDraws(cands, draws) && n <= |draws|
  {
    forall j :: 0 <= j < n ==> cands[draws[j]].id in previous
  }

  /** The `while` loop: each iteration draws again, then compares the lengths, then tests the draw. */
  function Retry(cands: seq<Question>, previous: seq<int>, draws: seq<nat>): (o: LoopOutcome)
    requires |cands| > 0 && ValidDraws(cands, draws)
    ensures o.Served? ==> o.question in cands && o.question.id !in previous
    ensures o.QuizOver? ==> |previous| == |cands|
    ensures !o.RangeError?
    // every redraw ends the quiz once the lengths are equal, whatever was drawn
    ensures |draws| > 0 && |previous| == |cands| ==> o == QuizOver
    ensures |draws| > 0 && |previous| != |cands| && cands[draws[0]].id !in previous ==>
              o == Served(cands[draws[0]])
    ensures |draws| == 0 ==> o == StillDrawing
    // a served question is the first unseen draw; drawing goes on exactly while every draw was seen
    ensures o.Served? ==> exists k :: 0 <= k < |draws| && o.question == cands[draws[k]] && SeenDraws(cands, previous, draws, k)
    ensures o == StillDrawing <==>
              |draws| == 0 || (|previous| != |cands| && SeenDraws(cands, previous, draws, |draws|))
    decreases |draws|
  {
    if |draws| == 0 then StillDrawing
    else if |previous| == |cands| then QuizOver
    else if cands[draws[0]].id !in previous then Served(cands[draws[0]])
    else Retry(cands, previous, draws[1..])
  }

  /** The selection as written: one draw, then the retry loop while the draw was seen before. */
  function RejectionLoop(cands: seq<Question>, previous: seq<int>, draws: seq<nat>): (o: LoopOutcome)
    requires ValidDraws(cands, draws)
    ensures o.RangeError? <==> |cands| == 0
    ensures o.Served? ==> o.question in cands && o.question.id !in previous
    ensures o.QuizOver? ==> |previous| == |cands|
    // an unseen first draw is served at once; a seen one with equal lengths ends the quiz at the redraw
    ensures |cands| > 0 && |draws| > 0 && cands[draws[0]].id !in previous ==> o == Served(cands[draws[0]])
    ensures |cands| > 0 && |draws| >= 2 && cands[draws[0]].id in previous && |previous| == |cands| ==>
              o == QuizOver
    ensures |cands| > 0 && |draws| == 0 ==> o == StillDrawing
    ensures o.Served? ==> exists k :: 0 <= k < |draws| && o.question == cands[draws[k]] && SeenDraws(cands, previous, draws, k)
    ensures |cands| > 0 ==>
              (o == StillDrawing <==>
                 SeenDraws(cands, previous, draws, |draws|) && (|draws| <= 1 || |previous| != |cands|))
  {
    if |cands| == 0 then RangeError
    else if |draws| == 0 then StillDrawing
    else if cands[draws[0]].id !in previous then Served(cands[draws[0]])
    else Retry(cands, previous, draws[1..])
  }

  /** Once every candidate is seen but the lengths differ, the retry loop never returns. */
  lemma {:induction false} RetryNeverEnds(cands: seq<Question>, previous: seq<int>, draws: seq<nat>)
    requires |cands| > 0 && ValidDraws(cands, draws)
    requires !HasUnseen(cands, previous) && |previous| != |cands|
    ensures Retry(cands, previous, draws) == StillDrawing
    decreases |draws|
  {
    if |draws| > 0 {
      assert cands[draws[0]].id in previous;
      RetryNeverEnds(cands, previous, draws[1..]);
    }
  }

  /** As written, no sequence of random draws ends the quiz in that situation. */
  lemma RejectionLoopCanRunForever(cands: seq<Question>, previous: seq<int>, draws: seq<nat>)
    requires |cands| > 0 && ValidDraws(cands, draws)
    requires !HasUnseen(cands, previous) && |previous| != |cands|
    ensures RejectionLoop(cands, previous, draws) == StillDrawing
  {
    if |draws| > 0 {
      assert cands[draws[0]].id in previous;
      RetryNeverEnds(cands, previous, draws[1..]);
    }
  }

  const Nixon := Question(1, "In what year did Nixon resign?", "1974", 3, 2)
  const Hanks := Question(2, "Which Tom Hanks film won the Oscar?", "Forrest Gump", 2, 5)

  /** A client that resends an id: `[1, 1]` covers the one candidate, yet the loop spins. */
  lemma RepeatedHistorySpins(draws: seq<nat>)
    requires ValidDraws([Nixon], draws)
    ensures !HasUnseen([Nixon], [1, 1])
    ensures RejectionLoop([Nixon], [1, 1], draws) == StillDrawing
  {
    RejectionLoopCanRunForever([Nixon], [1, 1], draws);
  }

  /** An id from another category fills the length test early: the quiz ends with question 2 unseen. */
  lemma ForeignHistoryEndsEarly()
    ensures HasUnseen([Nixon, Hanks], [1, 99])
    ensures RejectionLoop([Nixon, Hanks], [1, 99], [0, 1]) == QuizOver
  {
    assert [Nixon, Hanks][1].id !in [1, 99];
    assert [Nixon, Hanks][0].id in [1, 99];
  }

  /**
   * The intended selection: some candidate not served before, chosen
   * nondeterministically, or no question once every candidate has been served
   * (including when there is no candidate at all).
   */
  method NextQuestion(cands: seq<Question>, previous: seq<int>) returns (r: Option<Question>)
    ensures r.Some? ==> r.value in cands && r.value.id !in previous
    ensures r.None? <==> !HasUnseen(cands, previous)
  {
    if i :| 0 <= i < |cands| && cands[i].id !in previous {
      r := Some(cands[i]);
    } else {
      r := None;
    }
  }

  function Ids(cands: seq<Question>): set<int>
  {
    set q | q in cands :: q.id
  }

  function ServedIds(previous: seq<int>): set<int>
  {
    set x | x in previous
  }

  predicate Distinct(xs: seq<int>)
  {
    forall i, j :: 0 <= i < j < |xs| ==> xs[i] != xs[j]
  }

  /**
   * The history a well-behaved client sends: no id twice, and only ids of
   * questions in the pool, which itself has unique ids.
   */
  predicate WellFormedHistory(cands: seq<Question>, previous: seq<int>)
  {
    && UniqueQuestionIds(cands)
    && Distinct(previous)
    && forall i :: 0 <= i < |previous| ==> previous[i] in Ids(cands)
  }

  lemma {:induction false} IdsSize(cands: seq<Question>)
    requires UniqueQuestionIds(cands)
    ensures |Ids(cands)| == |cands|
    decreases |cands|
  {
    if |cands| > 0 {
      var init := cands[..|cands| - 1];
      var last := cands[|cands| - 1];
      assert cands == init + [last];
      assert Ids(cands) == Ids(init) + {last.id};
      assert last.id !in Ids(init);
      IdsSize(init);
    }
  }

  lemma {:induction false} ServedSize(previous: seq<int>)
    requires Distinct(previous)
    ensures |ServedIds(previous)| == |previous|
    decreases |previous|
  {
    if |previous| > 0 {
      var init := previous[..|previous| - 1];
      var last := previous[|previous| - 1];
      assert previous == init + [last];
      assert ServedIds(previous) == ServedIds(init) + {last};
      assert last !in ServedIds(init);
      ServedSize(init);
    }
  }

  lemma SubsetSize(a: set<int>, b: set<int>)
    requires a <= b
    ensures |a| <= |b|
    ensures |a| == |b| ==> a == b
  {
    assert b == a + (b - a);
    assert |b| == |a| + |b - a|;
    if |a| == |b| {
      assert |b - a| == 0;
    }
  }

  /**
   * For a well-formed history the source's length test is exactly the
   * "everything served" test, and the history never outgrows the pool.
   */
  lemma ExhaustedIffSameLength(cands: seq<Question>, previous: seq<int>)
    requires WellFormedHistory(cands, previous)
    ensures |previous| <= |cands|
    ensures |previous| == |cands| <==> !HasUnseen(cands, previous)
  {
    IdsSize(cands);
    ServedSize(previous);
    assert ServedIds(previous) <= Ids(cands);
    SubsetSize(ServedIds(previous), Ids(cands));
    if |previous| == |cands| {
      forall i | 0 <= i < |cands| ensures cands[i].id in previous {
        assert cands[i].id in Ids(cands);
      }
    }
    if !HasUnseen(cands, previous) {
      assert Ids(cands) <= ServedIds(previous) by {
        forall x | x in Ids(cands) ensures x in ServedIds(previous) {
          var k :| 0 <= k < |cands| && cands[k].id == x;
        }
      }
      SubsetSize(Ids(cands), ServedIds(previous));
    }
  }

  /**
   * On a well-formed history the as-written loop agrees with `NextQuestion`:
   * it ends the quiz only when every candidate was served, and then it does so
   * after its second draw.
   */
  lemma RejectionLoopAgreesOnWellFormedHistory(cands: seq<Question>, previous: seq<int>, draws: seq<nat>)
    requires WellFormedHistory(cands, previous) && ValidDraws(cands, draws)
    ensures RejectionLoop(cands, previous, draws).QuizOver? ==> !HasUnseen(cands, previous)
    ensures |cands| > 0 && !HasUnseen(cands, previous) && |draws| >= 2 ==>
              RejectionLoop(cands, previous, draws) == QuizOver
  {
    ExhaustedIffSameLength(cands, previous);
    if |cands| > 0 && !HasUnseen(cands, previous) && |draws| >= 2 {
      assert cands[draws[0]].id in previous;
    }
  }

  /**
   * A quiz session that appends each served id to its history stays
   * well-formed and strictly grows toward the pool size, so it reaches the
   * no-question response after at most `|cands|` questions.
   */
  lemma SessionProgresses(cands: seq<Question>, previous: seq<int>, q: Question)
    requires WellFormedHistory(cands, previous)
    requires q in cands && q.id !in previous
    ensures WellFormedHistory(cands, previous + [q.id])
    ensures |previous| < |cands|
  {
    ExhaustedIffSameLength(cands, previous);
    var k :| 0 <= k < |cands| && cands[k] == q;
    assert HasUnseen(cands, previous);
    var next := previous + [q.id];
    forall i | 0 <= i < |next| ensures next[i] in Ids(cands) {
      if i == |previous| {
        assert next[i] == cands[k].id;
      } else {
        assert next[i] == previous[i];
      }
    }
  }
}
