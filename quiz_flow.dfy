/** The quiz stepper: a step counter over four questions, a map from question
    id to the chosen answer, and a results screen once every question is
    answered. */
module QuizFlow {

  /** The question ids, in the order they are asked. */
  const QuestionIds: seq<string> := ["mood", "budget", "time", "cuisine"]

  const QuestionCount: nat := |QuestionIds|

  datatype QuizState = QuizState(step: nat, answers: map<string, string>)

  /** Step 0 and no answers, as the component starts and as "Take Quiz
      Again" leaves it. */
  const InitialQuiz: QuizState := QuizState(0, map[])

  /** The results screen is shown once the step reaches the number of
      questions. */
  predicate ShowsResults(s: QuizState) {
    s.step >= QuestionCount
  }

  /** The question on screen. */
  function CurrentQuestion(s: QuizState): string
    requires s.step < QuestionCount
  {
    QuestionIds[s.step]
  }

  /** `handleAnswer(id, answer)`, available while a question is on screen:
      the answer is recorded under its id, every other entry is kept, and the
      step moves on by one (from the last question, to the results). */
  function Answer(s: QuizState, id: string, answer: string): (t: QuizState)
    requires s.step < QuestionCount
    ensures id in t.answers && t.answers[id] == answer
    ensures t.answers.Keys == s.answers.Keys + {id}
    ensures forall k :: k in s.answers && k != id ==> t.answers[k] == s.answers[k]
    ensures s.step < QuestionCount - 1 ==> t.step == s.step + 1
    ensures s.step == QuestionCount - 1 ==> t.step == QuestionCount && ShowsResults(t)
    ensures t.step <= QuestionCount
  {
    var answers := s.answers[id := answer];
    if s.step < QuestionCount - 1 then QuizState(s.step + 1, answers)
    else QuizState(QuestionCount, answers)
  }

  /** The state after answering the first `|choices|` questions in order,
      picking `choices[i]` for question `i`. */
  function AnsweredInOrder(choices: seq<string>): (s: QuizState)
    requires |choices| <= QuestionCount
    ensures s.step == |choices|
  {
    if |choices| == 0 then InitialQuiz
    else
      var before := AnsweredInOrder(choices[..|choices| - 1]);
      Answer(before, CurrentQuestion(before), choices[|choices| - 1])
  }

  /** The four question ids are distinct. */
  lemma QuestionIdsDistinct(i: nat, j: nat)
    requires i < j < QuestionCount
    ensures QuestionIds[i] != QuestionIds[j]
  {
    assert QuestionIds[i][0] != QuestionIds[j][0];
  }

  /** The ids of the first `n` questions. */
  function Asked(n: nat): set<string>
    requires n <= QuestionCount
  {
    if n == 0 then {} else Asked(n - 1) + {QuestionIds[n - 1]}
  }

  lemma {:induction false} AskedIds(n: nat)
    requires n <= QuestionCount
    ensures forall k :: k in Asked(n) <==> k in QuestionIds[..n]
  {
    if n > 0 {
      AskedIds(n - 1);
      assert QuestionIds[..n] == QuestionIds[..n - 1] + [QuestionIds[n - 1]];
    }
  }

  lemma {:induction false} AnsweredKeys(choices: seq<string>)
    requires |choices| <= QuestionCount
    ensures AnsweredInOrder(choices).answers.Keys == Asked(|choices|)
  {
    if |choices| > 0 {
      AnsweredKeys(choices[..|choices| - 1]);
    }
  }

  lemma {:induction false} AnsweredValue(choices: seq<string>, i: nat)
    requires |choices| <= QuestionCount && i < |choices|
    ensures QuestionIds[i] in AnsweredInOrder(choices).answers
    ensures AnsweredInOrder(choices).answers[QuestionIds[i]] == choices[i]
  {
    var n := |choices| - 1;
    var prefix := choices[..n];
    if i < n {
      AnsweredValue(prefix, i);
      QuestionIdsDistinct(i, n);
      assert prefix[i] == choices[i];
    }
  }

  /** After answering in order, the answers hold exactly the ids asked so
      far, each with its choice. */
  lemma AnsweredInOrderHolds(choices: seq<string>)
    requires |choices| <= QuestionCount
    ensures forall k :: k in AnsweredInOrder(choices).answers <==> k in QuestionIds[..|choices|]
    ensures forall i :: 0 <= i < |choices| ==> AnsweredInOrder(choices).answers[QuestionIds[i]] == choices[i]
  {
    AnsweredKeys(choices);
    AskedIds(|choices|);
    forall i | 0 <= i < |choices|
      ensures QuestionIds[i] in AnsweredInOrder(choices).answers
      ensures AnsweredInOrder(choices).answers[QuestionIds[i]] == choices[i]
    {
      AnsweredValue(choices, i);
    }
  }

  /** Answering the four questions in order reaches the results screen with
      exactly the keys mood, budget, time and cuisine. */
  lemma CompletedQuiz(choices: seq<string>)
    requires |choices| == QuestionCount
    ensures ShowsResults(AnsweredInOrder(choices))
    ensures AnsweredInOrder(choices).answers.Keys == {"mood", "budget", "time", "cuisine"}
  {
    AnsweredKeys(choices);
    assert Asked(2) == {"mood", "budget"};
    assert Asked(4) == {"mood", "budget", "time", "cuisine"};
  }

  /** A click on the screen: an answer button while a question is shown,
      "Take Quiz Again" on the results screen. */
  datatype Click = Choose(id: string, answer: string) | TakeAgain

  /** The state after a sequence of clicks; a click on a button that is not
      on screen changes nothing. */
  function Run(s: QuizState, clicks: seq<Click>): QuizState
    requires s.step <= QuestionCount
    decreases |clicks|
  {
    if |clicks| == 0 then s
    else
      var next :=
        match clicks[0]
        case Choose(id, answer) => if ShowsResults(s) then s else Answer(s, id, answer)
        case TakeAgain => if ShowsResults(s) then InitialQuiz else s;
      Run(next, clicks[1..])
  }

  /** From any reachable state, the step stays within 0..4, and the results
      screen is on exactly at step 4. */
  lemma {:induction false} RunKeepsStepInRange(s: QuizState, clicks: seq<Click>)
    requires s.step <= QuestionCount
    ensures Run(s, clicks).step <= QuestionCount
    ensures ShowsResults(Run(s, clicks)) <==> Run(s, clicks).step == QuestionCount
    decreases |clicks|
  {
    if |clicks| > 0 {
      var next :=
        match clicks[0]
        case Choose(id, answer) => if ShowsResults(s) then s else Answer(s, id, answer)
        case TakeAgain => if ShowsResults(s) then InitialQuiz else s;
      RunKeepsStepInRange(next, clicks[1..]);
    }
  }

  /** The component's state. */
  class Quiz {
    var currentStep: nat
    var answers: map<string, string>

    function State(): QuizState
      reads this
    {
      QuizState(currentStep, answers)
    }

    constructor()
      ensures State() == InitialQuiz
    {
      currentStep := 0;
      answers := map[];
    }

    method HandleAnswer(questionId: string, answer: string)
      requires currentStep < QuestionCount
      modifies this
      ensures State() == Answer(old(State()), questionId, answer)
    {
      answers := answers[questionId := answer];
      if currentStep < QuestionCount - 1 {
        currentStep := currentStep + 1;
      } else {
        currentStep := QuestionCount;
      }
    }

    /** "Take Quiz Again". */
    method Reset()
      modifies this
      ensures State() == InitialQuiz && !ShowsResults(State())
    {
      currentStep := 0;
      answers := map[];
    }
  }
}
