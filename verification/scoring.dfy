/**
 * `calculateUserPolicyScores` (src/lib/utils.ts): per-category averages of
 * the quiz answers on a 0-100 scale.
 *
 * An answer is whatever the decoded answers object holds under the question's
 * id; JavaScript's arithmetic coerces it to a number, so it is modelled by
 * that coercion: `Num(x)` when it is a number `x`, `NotNumber` when it
 * coerces to NaN. Arithmetic on NaN is NaN, which `Score` makes explicit.
 */
module Scoring {
  import opened Types

  datatype AnswerVal = Num(value: real) | NotNumber

  /** The decoded answers object, keyed by question id. */
  type Answers = map<int, AnswerVal>

  /** A JavaScript number as the scoring arithmetic sees it: a finite value or NaN. */
  datatype Score = Finite(value: real) | NaN

  function Add(a: Score, b: Score): (r: Score)
    ensures r.NaN? <==> a.NaN? || b.NaN?
  {
    if a.NaN? || b.NaN? then NaN else Finite(a.value + b.value)
  }

  function Divide(a: Score, n: nat): (r: Score)
    requires n > 0
    ensures r.NaN? <==> a.NaN?
    ensures a.Finite? ==> r.value * (n as real) == a.value
  {
    if a.NaN? then NaN else Finite(a.value / n as real)
  }

  /** What one question contributes: 50 when unanswered, `(a-1)*25` for answer `a`, mirrored when inverted. */
  function QuestionScore(q: Question, answers: Answers): (r: Score)
    ensures q.id !in answers ==> r == Finite(50.0)
    ensures r.NaN? <==> q.id in answers && answers[q.id].NotNumber?
  {
    if q.id !in answers then Finite(50.0)
    else match answers[q.id]
      case NotNumber => NaN
      case Num(a) =>
        var raw := (a - 1.0) * 25.0;
        Finite(if q.isInverted then 100.0 - raw else raw)
  }

  /** `questions.filter(q => q.category === category)`, in order. */
  function InCategory(questions: seq<Question>, c: PolicyCategory): (r: seq<Question>)
    ensures |r| <= |questions|
    ensures forall q :: q in r ==> q in questions && q.category == c
    ensures forall q :: q in questions && q.category == c ==> q in r
  {
    if |questions| == 0 then []
    else
      var last := questions[|questions| - 1];
      InCategory(questions[..|questions| - 1], c) + (if last.category == c then [last] else [])
  }

  /** `.map(q => ...)` over the category's questions. */
  function QuestionScores(questions: seq<Question>, answers: Answers): (r: seq<Score>)
    ensures |r| == |questions|
    ensures forall i :: 0 <= i < |questions| ==> r[i] == QuestionScore(questions[i], answers)
  {
    seq(|questions|, i requires 0 <= i < |questions| => QuestionScore(questions[i], answers))
  }

  /** `.reduce((sum, score) => sum + score, 0)`, folding from the left. */
  function Sum(ss: seq<Score>): Score {
    if |ss| == 0 then Finite(0.0) else Add(Sum(ss[..|ss| - 1]), ss[|ss| - 1])
  }

  /** The score of one category: 50 without questions, otherwise the mean of the question scores. */
  function CategoryScore(questions: seq<Question>, answers: Answers, c: PolicyCategory): Score {
    var qs := InCategory(questions, c);
    if |qs| == 0 then Finite(50.0)
    else Divide(Sum(QuestionScores(qs, answers)), |qs|)
  }

  /** `calculateUserPolicyScores`, with the question list passed in. */
  function UserPolicyScores(questions: seq<Question>, answers: Answers): (r: map<PolicyCategory, Score>)
    ensures TotalScores(r)
  {
    CategoriesAreCanonical();
    map c: PolicyCategory | c in PolicyCategories :: CategoryScore(questions, answers, c)
  }

  // ---------------------------------------------------------------------------
  // Reference definitions
  // ---------------------------------------------------------------------------

  /** The policy score an answer `a` stands for: agreement 1..5 spread over 0..100, reversed for inverted questions. */
  function PolicyValue(a: real, inverted: bool): real {
    if inverted then 125.0 - 25.0 * a else 25.0 * a - 25.0
  }

  /** `m` is the mean of `n` values that add up to `total`. */
  predicate IsMean(m: real, total: real, n: nat) {
    m * (n as real) == total
  }

  /** Whether every answer the category's questions read is numeric. */
  predicate CategoryIsNumeric(questions: seq<Question>, answers: Answers, c: PolicyCategory) {
    forall q :: q in questions && q.category == c && q.id in answers ==> answers[q.id].Num?
  }

  /** An answers object whose every value is an agreement level 1..5. */
  predicate AnswersInRange(answers: Answers) {
    forall id :: id in answers ==> answers[id].Num? && 1.0 <= answers[id].value <= 5.0
  }

  // ---------------------------------------------------------------------------
  // Lemmas
  // ---------------------------------------------------------------------------

  lemma {:induction false} SumNaN(ss: seq<Score>)
    ensures Sum(ss).NaN? <==> exists i :: 0 <= i < |ss| && ss[i].NaN?
  {
    if |ss| > 0 {
      var init := ss[..|ss| - 1];
      SumNaN(init);
      if exists i :: 0 <= i < |init| && init[i].NaN? {
        var i :| 0 <= i < |init| && init[i].NaN?;
        assert ss[i].NaN?;
      }
      if exists i :: 0 <= i < |ss| && ss[i].NaN? {
        var i :| 0 <= i < |ss| && ss[i].NaN?;
        if i < |init| {
          assert init[i].NaN?;
        }
      }
    }
  }

  lemma MulSucc(x: real, k: real)
    ensures x * (k + 1.0) == x * k + x
  {
  }

  lemma {:induction false} SumBounds(ss: seq<Score>, lo: real, hi: real)
    requires forall i :: 0 <= i < |ss| ==> ss[i].Finite? && lo <= ss[i].value <= hi
    ensures Sum(ss).Finite?
    ensures lo * (|ss| as real) <= Sum(ss).value <= hi * (|ss| as real)
  {
    if |ss| > 0 {
      var init := ss[..|ss| - 1];
      var k := |init| as real;
      var n := |ss| as real;
      SumBounds(init, lo, hi);
      var s0 := Sum(init).value;
      var x := ss[|ss| - 1].value;
      assert lo <= x <= hi;
      assert Sum(ss) == Finite(s0 + x);
      assert n == k + 1.0;
      MulSucc(lo, k);
      MulSucc(hi, k);
      assert lo * n == lo * k + lo;
      assert hi * n == hi * k + hi;
    }
  }

  /** The mean of `n` scores that sum to `n * v` is `v`. */
  lemma DivideMultiple(v: real, n: nat)
    requires n > 0
    ensures Divide(Finite(v * (n as real)), n) == Finite(v)
  {
  }

  /** The mean of `n` scores whose sum lies in `[n * lo, n * hi]` lies in `[lo, hi]`. */
  lemma DivideBounds(s: real, n: nat, lo: real, hi: real)
    requires n > 0
    requires lo * (n as real) <= s <= hi * (n as real)
    ensures lo <= Divide(Finite(s), n).value <= hi
  {
    var nr := n as real;
    var m := Divide(Finite(s), n).value;
    assert (m - lo) * nr == s - lo * nr;
    assert (hi - m) * nr == hi * nr - s;
  }

  /** A sum of `n` copies of `v` is `n * v`. */
  lemma {:induction false} SumConstant(ss: seq<Score>, v: real)
    requires forall i :: 0 <= i < |ss| ==> ss[i] == Finite(v)
    ensures Sum(ss) == Finite(v * (|ss| as real))
  {
    if |ss| > 0 {
      SumConstant(ss[..|ss| - 1], v);
    }
  }

  /** Sums of pointwise equal sequences agree. */
  lemma SumCongruent(a: seq<Score>, b: seq<Score>)
    requires |a| == |b|
    requires forall i :: 0 <= i < |a| ==> a[i] == b[i]
    ensures Sum(a) == Sum(b)
  {
    assert a == b;
  }

  lemma InCategoryAppend(questions: seq<Question>, q: Question, c: PolicyCategory)
    ensures InCategory(questions + [q], c) == InCategory(questions, c) + (if q.category == c then [q] else [])
  {
    assert (questions + [q])[..|questions|] == questions;
  }

  /** A numeric answer contributes its policy value; the inverted and the plain reading are mirror images. */
  lemma QuestionScoreOfAnswer(q: Question, answers: Answers)
    requires q.id in answers && answers[q.id].Num?
    ensures QuestionScore(q, answers) == Finite(PolicyValue(answers[q.id].value, q.isInverted))
    ensures PolicyValue(answers[q.id].value, true) == PolicyValue(6.0 - answers[q.id].value, false)
  {
  }

  /** An answer in 1..5 gives a policy value in 0..100. */
  lemma PolicyValueBounds(a: real, inverted: bool)
    requires 1.0 <= a <= 5.0
    ensures 0.0 <= PolicyValue(a, inverted) <= 100.0
  {
  }

  /** The category total as the mean is meant to read it: each question adds its answer's policy value, or 50 when unanswered. */
  function AnsweredTotal(qs: seq<Question>, answers: Answers): real {
    if |qs| == 0 then 0.0
    else
      var q := qs[|qs| - 1];
      AnsweredTotal(qs[..|qs| - 1], answers)
        + (if q.id in answers && answers[q.id].Num? then PolicyValue(answers[q.id].value, q.isInverted) else 50.0)
  }

  /** With numeric answers, the summed question scores are the answered total. */
  lemma {:induction false} SumIsAnsweredTotal(qs: seq<Question>, answers: Answers)
    requires forall q :: q in qs && q.id in answers ==> answers[q.id].Num?
    ensures Sum(QuestionScores(qs, answers)) == Finite(AnsweredTotal(qs, answers))
  {
    if |qs| > 0 {
      var init := qs[..|qs| - 1];
      var last := qs[|qs| - 1];
      assert forall q :: q in init ==> q in qs;
      SumIsAnsweredTotal(init, answers);
      var ss := QuestionScores(qs, answers);
      assert ss[..|ss| - 1] == QuestionScores(init, answers);
      if last.id in answers {
        QuestionScoreOfAnswer(last, answers);
      }
    }
  }

  /** The score of a category with numeric answers, from its unfolded definition. */
  lemma MeanOfScores(s: Score, qs: seq<Question>, answers: Answers)
    requires forall q :: q in qs && q.id in answers ==> answers[q.id].Num?
    requires s == if |qs| == 0 then Finite(50.0) else Divide(Sum(QuestionScores(qs, answers)), |qs|)
    ensures s.Finite?
    ensures |qs| == 0 ==> s.value == 50.0
    ensures IsMean(s.value, AnsweredTotal(qs, answers), |qs|)
  {
    SumIsAnsweredTotal(qs, answers);
  }

  /**
   * Every one of the eight categories gets a score. With numeric answers it is
   * finite: 50 for a category without questions, otherwise the answered total
   * divided by the number of the category's questions.
   */
  lemma CategoryScoreIsMean(questions: seq<Question>, answers: Answers, c: PolicyCategory)
    requires CategoryIsNumeric(questions, answers, c)
    ensures c in UserPolicyScores(questions, answers)
    ensures UserPolicyScores(questions, answers)[c].Finite?
    ensures |InCategory(questions, c)| == 0 ==> UserPolicyScores(questions, answers)[c].value == 50.0
    ensures IsMean(UserPolicyScores(questions, answers)[c].value, AnsweredTotal(InCategory(questions, c), answers), |InCategory(questions, c)|)
  {
    var qs := InCategory(questions, c);
    assert forall q :: q in qs && q.id in answers ==> answers[q.id].Num?;
    assert UserPolicyScores(questions, answers)[c] == CategoryScore(questions, answers, c);
    MeanOfScores(CategoryScore(questions, answers, c), qs, answers);
  }

  /** A category no question belongs to scores exactly 50. */
  lemma EmptyCategoryIsNeutral(questions: seq<Question>, answers: Answers, c: PolicyCategory)
    requires forall q :: q in questions ==> q.category != c
    ensures UserPolicyScores(questions, answers)[c] == Finite(50.0)
  {
  }

  /** The mean of scores that all equal `v` is `v`. */
  lemma MeanOfConstant(ss: seq<Score>, v: real)
    requires |ss| > 0
    requires forall i :: 0 <= i < |ss| ==> ss[i] == Finite(v)
    ensures Divide(Sum(ss), |ss|) == Finite(v)
  {
    SumConstant(ss, v);
    DivideMultiple(v, |ss|);
  }

  /** A category whose questions all score `v` has mean `v`. */
  lemma ConstantCategoryScore(questions: seq<Question>, answers: Answers, c: PolicyCategory, v: real)
    requires |InCategory(questions, c)| > 0
    requires forall q :: q in InCategory(questions, c) ==> QuestionScore(q, answers) == Finite(v)
    ensures CategoryScore(questions, answers, c) == Finite(v)
  {
    var qs := InCategory(questions, c);
    var ss := QuestionScores(qs, answers);
    forall i | 0 <= i < |ss|
      ensures ss[i] == Finite(v)
    {
      assert qs[i] in qs;
    }
    MeanOfConstant(ss, v);
  }

  /** A category whose questions are all unanswered also scores exactly 50. */
  lemma UnansweredCategoryIsNeutral(questions: seq<Question>, answers: Answers, c: PolicyCategory)
    requires forall q :: q in questions && q.category == c ==> q.id !in answers
    ensures UserPolicyScores(questions, answers)[c] == Finite(50.0)
  {
    if |InCategory(questions, c)| > 0 {
      ConstantCategoryScore(questions, answers, c, 50.0);
    }
  }

  /** Answer 3 scores the neutral 50, as an unanswered question does. */
  lemma NeutralQuestionScore(q: Question, answers: Answers, id: int)
    requires id !in answers
    ensures QuestionScore(q, answers) == QuestionScore(q, answers[id := Num(3.0)])
  {
  }

  lemma NeutralCategoryScore(questions: seq<Question>, answers: Answers, id: int, c: PolicyCategory)
    requires id !in answers
    ensures CategoryScore(questions, answers, c) == CategoryScore(questions, answers[id := Num(3.0)], c)
  {
    var qs := InCategory(questions, c);
    var answers' := answers[id := Num(3.0)];
    forall i | 0 <= i < |qs|
      ensures QuestionScore(qs[i], answers) == QuestionScore(qs[i], answers')
    {
      NeutralQuestionScore(qs[i], answers, id);
    }
    SumCongruent(QuestionScores(qs, answers), QuestionScores(qs, answers'));
  }

  /** Leaving a question unanswered scores the same as answering it 3, the neutral agreement level. */
  lemma UnansweredIsNeutralAnswer(questions: seq<Question>, answers: Answers, id: int)
    requires id !in answers
    ensures UserPolicyScores(questions, answers) == UserPolicyScores(questions, answers[id := Num(3.0)])
  {
    forall c: PolicyCategory
      ensures CategoryScore(questions, answers, c) == CategoryScore(questions, answers[id := Num(3.0)], c)
    {
      NeutralCategoryScore(questions, answers, id, c);
    }
  }

  /** Only the category's own questions and their answers decide its score. */
  lemma CategoryScoreDependsOnItsQuestions(questions: seq<Question>, a1: Answers, a2: Answers, c: PolicyCategory)
    requires forall q :: q in questions && q.category == c ==> (q.id in a1 <==> q.id in a2)
    requires forall q :: q in questions && q.category == c && q.id in a1 ==> a1[q.id] == a2[q.id]
    ensures UserPolicyScores(questions, a1)[c] == UserPolicyScores(questions, a2)[c]
  {
    var qs := InCategory(questions, c);
    forall i | 0 <= i < |qs|
      ensures QuestionScore(qs[i], a1) == QuestionScore(qs[i], a2)
    {
      assert qs[i] in qs;
    }
    SumCongruent(QuestionScores(qs, a1), QuestionScores(qs, a2));
  }

  /** Filtering by category distributes over concatenation. */
  lemma {:induction false} InCategoryConcat(a: seq<Question>, b: seq<Question>, c: PolicyCategory)
    ensures InCategory(a + b, c) == InCategory(a, c) + InCategory(b, c)
  {
    if |b| == 0 {
      assert a + b == a;
    } else {
      var init := b[..|b| - 1];
      var last := b[|b| - 1];
      var tail := if last.category == c then [last] else [];
      assert b == init + [last];
      assert a + b == (a + init) + [last];
      calc {
        InCategory(a + b, c);
        { InCategoryAppend(a + init, last, c); }
        InCategory(a + init, c) + tail;
        { InCategoryConcat(a, init, c); }
        (InCategory(a, c) + InCategory(init, c)) + tail;
        InCategory(a, c) + (InCategory(init, c) + tail);
        { InCategoryAppend(init, last, c); }
        InCategory(a, c) + InCategory(b, c);
      }
    }
  }

  /** Inserting a question of another category anywhere leaves a category's score unchanged. */
  lemma OtherCategoryQuestionIgnored(a: seq<Question>, q: Question, b: seq<Question>, answers: Answers, c: PolicyCategory)
    requires q.category != c
    ensures UserPolicyScores(a + [q] + b, answers)[c] == UserPolicyScores(a + b, answers)[c]
  {
    InCategoryConcat(a + [q], b, c);
    InCategoryConcat(a, b, c);
    InCategoryAppend(a, q, c);
    assert InCategory(a + [q] + b, c) == InCategory(a + b, c);
  }

  /** A category's score is NaN exactly when one of its questions has a non-numeric answer. */
  lemma CategoryScoreNaN(questions: seq<Question>, answers: Answers, c: PolicyCategory)
    ensures UserPolicyScores(questions, answers)[c].NaN? <==> !CategoryIsNumeric(questions, answers, c)
  {
    var qs := InCategory(questions, c);
    var ss := QuestionScores(qs, answers);
    SumNaN(ss);
    if !CategoryIsNumeric(questions, answers, c) {
      var q :| q in questions && q.category == c && q.id in answers && !answers[q.id].Num?;
      assert q in qs;
      var i :| 0 <= i < |qs| && qs[i] == q;
      assert ss[i].NaN?;
    }
  }

  /** With every answer in 1..5, every category score is a number in 0..100. */
  lemma ScoresInRange(questions: seq<Question>, answers: Answers, c: PolicyCategory)
    requires AnswersInRange(answers)
    ensures UserPolicyScores(questions, answers)[c].Finite?
    ensures 0.0 <= UserPolicyScores(questions, answers)[c].value <= 100.0
  {
    var qs := InCategory(questions, c);
    if |qs| > 0 {
      var ss := QuestionScores(qs, answers);
      forall i | 0 <= i < |ss|
        ensures ss[i].Finite? && 0.0 <= ss[i].value <= 100.0
      {
        if qs[i].id in answers {
          QuestionScoreOfAnswer(qs[i], answers);
          PolicyValueBounds(answers[qs[i].id].value, qs[i].isInverted);
        }
      }
      SumBounds(ss, 0.0, 100.0);
      DivideBounds(Sum(ss).value, |qs|, 0.0, 100.0);
    }
  }

  /** When every question of a category reads the same policy value, the category scores that value. */
  lemma UniformCategory(questions: seq<Question>, answers: Answers, c: PolicyCategory, v: real)
    requires exists q :: q in questions && q.category == c
    requires forall q :: q in questions && q.category == c ==> QuestionScore(q, answers) == Finite(v)
    ensures UserPolicyScores(questions, answers)[c] == Finite(v)
  {
    var q :| q in questions && q.category == c;
    assert q in InCategory(questions, c);
    ConstantCategoryScore(questions, answers, c, v);
  }

  /** A single Education question answered 5 scores Education 100, or 0 when the question is inverted. */
  lemma StrongAgreementExtremes(id: int, text: string, inverted: bool)
    ensures var q := Question(id, text, Education, inverted);
      UserPolicyScores([q], map[id := Num(5.0)])[Education] == Finite(if inverted then 0.0 else 100.0)
  {
    var q := Question(id, text, Education, inverted);
    UniformCategory([q], map[id := Num(5.0)], Education, if inverted then 0.0 else 100.0);
  }
}
