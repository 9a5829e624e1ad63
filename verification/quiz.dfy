/**
 * The quiz page's state machine (src/app/quiz/QuizClient.tsx): the index of
 * the current question, the answers given so far (question id to agreement
 * level), and the level selected on the current question.
 *
 * The effect that pre-fills the selection runs after every change of the
 * index or the answers; each transition below includes it. Scrolling,
 * timers and rendering are left out. `encodeURIComponent(JSON.stringify(...))`
 * is a parameter of the model.
 */
module Quiz {
  import opened Types
  import opened Scoring

  datatype AgreementLevel = AgreementLevel(value: int, text: string)

  /** The five radio buttons, in display order. */
  const AgreementLevels: seq<AgreementLevel> := [
    AgreementLevel(1, "Strongly Disagree"),
    AgreementLevel(2, "Disagree"),
    AgreementLevel(3, "Neutral"),
    AgreementLevel(4, "Agree"),
    AgreementLevel(5, "Strongly Agree")
  ]

  const ResultsRoute := "/results?answers="

  datatype QuizState = QuizState(index: nat, answers: map<int, int>, selected: Option<int>)

  /** `answers[currentQuestion.id] || null`: the stored answer, none when absent or 0. */
  function Prefill(questions: seq<Question>, s: QuizState): (r: QuizState)
    requires s.index < |questions|
    ensures r.index == s.index && r.answers == s.answers
    ensures var id := questions[s.index].id;
      r.selected == if id in s.answers && s.answers[id] != 0 then Some(s.answers[id]) else None
    ensures AnswersAreLevels(s.answers) && EarlierAnswered(questions, s) ==> Valid(questions, r)
  {
    var id := questions[s.index].id;
    s.(selected := if id in s.answers && s.answers[id] != 0 then Some(s.answers[id]) else None)
  }

  /** The state on the first render: question 0, no answers, and the pre-fill finding nothing. */
  function Init(questions: seq<Question>): (s: QuizState)
    requires |questions| >= 1
    ensures s.index == 0 && |s.answers| == 0 && s.selected.None?
    ensures Valid(questions, s)
  {
    Prefill(questions, QuizState(0, map[], None))
  }

  /** Clicking radio button `k`: `setSelectedAnswer(parseInt(value))` with that button's value. */
  function Select(s: QuizState, k: nat): (r: QuizState)
    requires k < |AgreementLevels|
    ensures r.index == s.index && r.answers == s.answers
    ensures r.selected == Some(k + 1)
  {
    s.(selected := Some(AgreementLevels[k].value))
  }

  /** What `handleNext` leaves behind: the new state, and the route pushed on the last question. */
  datatype Step = Step(state: QuizState, navigate: Option<string>)

  /**
   * `handleNext`. Without a selection nothing happens. With one, it is
   * stored under the current question's id and every other answer is kept;
   * before the last question the quiz moves on by one and navigates nowhere,
   * on the last it stays and navigates to the results with the new answers.
   * The question shown afterwards has its stored answer selected.
   */
  function Next(questions: seq<Question>, s: QuizState, encode: map<int, int> -> string): (r: Step)
    requires s.index < |questions|
    ensures s.selected.None? ==> r == Step(s, None)
    ensures s.selected.Some? ==>
      var id := questions[s.index].id;
      && id in r.state.answers && r.state.answers[id] == s.selected.value
      && (forall other :: other != id ==> (other in r.state.answers <==> other in s.answers))
      && (forall other :: other != id && other in s.answers ==> r.state.answers[other] == s.answers[other])
    ensures s.selected.Some? && s.index < |questions| - 1 ==>
      r.state.index == s.index + 1 && r.navigate.None?
    ensures s.selected.Some? && s.index == |questions| - 1 ==>
      r.state.index == s.index && r.navigate == Some(ResultsRoute + encode(r.state.answers))
    ensures Valid(questions, s) ==> Valid(questions, r.state)
    ensures Valid(questions, s) && s.selected.Some? ==>
      var id := questions[r.state.index].id;
      r.state.selected == if id in r.state.answers then Some(r.state.answers[id]) else None
  {
    match s.selected
    case None => Step(s, None)
    case Some(v) =>
      var newAnswers := s.answers[questions[s.index].id := v];
      if s.index < |questions| - 1 then
        Step(Prefill(questions, QuizState(s.index + 1, newAnswers, s.selected)), None)
      else
        Step(Prefill(questions, QuizState(s.index, newAnswers, s.selected)), Some(ResultsRoute + encode(newAnswers)))
  }

  /** `handleBack`: one question earlier, unless on the first; the answers never change. */
  function Back(questions: seq<Question>, s: QuizState): (r: QuizState)
    requires s.index < |questions|
    ensures r.answers == s.answers
    ensures r.index == if s.index > 0 then s.index - 1 else s.index
    ensures Valid(questions, s) ==> Valid(questions, r)
    ensures Valid(questions, s) && s.index > 0 ==>
      var id := questions[r.index].id;
      id in r.answers && r.selected == Some(r.answers[id])
  {
    if s.index > 0 then Prefill(questions, s.(index := s.index - 1)) else s
  }

  // ---------------------------------------------------------------------------
  // Invariant
  // ---------------------------------------------------------------------------

  predicate IsLevel(v: int) {
    1 <= v <= 5
  }

  predicate AnswersAreLevels(answers: map<int, int>) {
    forall id :: id in answers ==> IsLevel(answers[id])
  }

  /** Every question before the current one has been answered. */
  predicate EarlierAnswered(questions: seq<Question>, s: QuizState) {
    forall j :: 0 <= j < s.index && j < |questions| ==> questions[j].id in s.answers
  }

  /**
   * What every reachable state satisfies: the index points at a question,
   * every stored answer and the selection are agreement levels, and every
   * question before the current one has been answered.
   */
  predicate Valid(questions: seq<Question>, s: QuizState) {
    && s.index < |questions|
    && AnswersAreLevels(s.answers)
    && (s.selected.Some? ==> IsLevel(s.selected.value))
    && EarlierAnswered(questions, s)
  }

  /** The answers as `calculateUserPolicyScores` reads them. */
  function AsAnswers(answers: map<int, int>): (a: Answers)
    ensures a.Keys == answers.Keys
    ensures forall id :: id in a ==> a[id] == Num(answers[id] as real)
  {
    map id | id in answers :: Num(answers[id] as real)
  }

  // ---------------------------------------------------------------------------
  // Lemmas
  // ---------------------------------------------------------------------------

  /** The buttons offer exactly the levels 1 to 5. */
  lemma LevelsAreOneToFive()
    ensures forall k :: 0 <= k < |AgreementLevels| ==> AgreementLevels[k].value == k + 1
    ensures forall v :: IsLevel(v) <==> exists k :: 0 <= k < |AgreementLevels| && AgreementLevels[k].value == v
  {
    assert forall v :: IsLevel(v) ==> AgreementLevels[v - 1].value == v;
  }

  lemma SelectValid(questions: seq<Question>, s: QuizState, k: nat)
    requires Valid(questions, s) && k < |AgreementLevels|
    ensures Valid(questions, Select(s, k))
  {
  }

  /** A state whose index is the last question's has every earlier question answered; Next adds the last. */
  lemma LastNextAnswersAll(questions: seq<Question>, s: QuizState, encode: map<int, int> -> string)
    requires Valid(questions, s)
    requires Next(questions, s, encode).navigate.Some?
    ensures forall q :: q in questions ==> q.id in Next(questions, s, encode).state.answers
  {
    var answers := Next(questions, s, encode).state.answers;
    forall q | q in questions
      ensures q.id in answers
    {
      var j :| 0 <= j < |questions| && questions[j] == q;
    }
  }

  /**
   * When the last Next navigates, every quiz question has an answer and every
   * answer is a level 1..5. So every policy score the results page derives
   * from them is a number in 0..100, whatever list of questions it scores
   * against: the page's list (`scored`) need not be the quiz's, and its
   * questions whose ids the quiz did not ask score 50.
   */
  lemma HandOff(questions: seq<Question>, scored: seq<Question>, s: QuizState, encode: map<int, int> -> string)
    requires Valid(questions, s)
    requires Next(questions, s, encode).navigate.Some?
    ensures var answers := Next(questions, s, encode).state.answers;
      && (forall q :: q in questions ==> q.id in answers)
      && AnswersInRange(AsAnswers(answers))
      && (forall c :: UserPolicyScores(scored, AsAnswers(answers))[c].Finite?)
      && (forall c :: 0.0 <= UserPolicyScores(scored, AsAnswers(answers))[c].value <= 100.0)
  {
    var answers := Next(questions, s, encode).state.answers;
    LastNextAnswersAll(questions, s, encode);
    var a := AsAnswers(answers);
    assert AnswersInRange(a);
    forall c: PolicyCategory
      ensures UserPolicyScores(scored, a)[c].Finite?
      ensures 0.0 <= UserPolicyScores(scored, a)[c].value <= 100.0
    {
      ScoresInRange(scored, a, c);
    }
  }
}
