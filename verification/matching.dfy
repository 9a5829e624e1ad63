/**
 * `calculateMatchPercentage` (src/lib/utils.ts): 100 minus the mean absolute
 * difference over the eight categories, rounded and floored at 0.
 *
 * A score is read with JavaScript's `|| 50`: an absent score and a score of
 * exactly 0 both count as the neutral 50.
 */
module Matching {
  import opened Types

  /** `scores[category] || 50`. */
  function ScoreOrNeutral(scores: PolicyScores, c: PolicyCategory): (r: real)
    ensures c !in scores || scores[c] == 0.0 ==> r == 50.0
    ensures c in scores && scores[c] != 0.0 ==> r == scores[c]
  {
    if c in scores && scores[c] != 0.0 then scores[c] else 50.0
  }

  function Abs(x: real): (r: real)
    ensures r >= 0.0
  {
    if x < 0.0 then -x else x
  }

  /** The running `totalDifference` after visiting `cs`. */
  function TotalDifference(user: PolicyScores, pol: PolicyScores, cs: seq<PolicyCategory>): (r: real)
    ensures r >= 0.0
  {
    if |cs| == 0 then 0.0
    else
      var c := cs[|cs| - 1];
      TotalDifference(user, pol, cs[..|cs| - 1]) + Abs(ScoreOrNeutral(user, c) - ScoreOrNeutral(pol, c))
  }

  /** `Math.round`: the nearest integer, halves rounded up. */
  function Round(x: real): (n: int)
    ensures x - 0.5 < n as real <= x + 0.5
  {
    (x + 0.5).Floor
  }

  function Max(a: int, b: int): (r: int)
    ensures r >= a && r >= b
    ensures r == a || r == b
  {
    if a >= b then a else b
  }

  /** The match between two score records, as `calculateMatchPercentage` computes it. */
  function MatchScores(user: PolicyScores, pol: PolicyScores): (r: int)
    ensures 0 <= r <= 100
  {
    var averageDifference := TotalDifference(user, pol, PolicyCategories) / (|PolicyCategories| as real);
    Max(0, Round(100.0 - averageDifference))
  }

  /** `calculateMatchPercentage`: an integer in 0..100, and 100 for a politician whose scores are the user's own. */
  function MatchPercentage(userScores: PolicyScores, politician: Politician): (r: int)
    ensures 0 <= r <= 100
    ensures politician.scores == userScores ==> r == 100
  {
    MatchSelf(userScores);
    MatchScores(userScores, politician.scores)
  }

  // ---------------------------------------------------------------------------
  // Lemmas
  // ---------------------------------------------------------------------------

  /** `Round` is the unique integer within a half of its argument. */
  lemma RoundUnique(x: real, n: int)
    requires x - 0.5 < n as real <= x + 0.5
    ensures Round(x) == n
  {
  }

  /** The total difference is a sum of per-category terms that only read the neutralised scores. */
  lemma {:induction false} TotalDifferenceCongruent(u1: PolicyScores, p1: PolicyScores, u2: PolicyScores, p2: PolicyScores, cs: seq<PolicyCategory>)
    requires forall i :: 0 <= i < |cs| ==> ScoreOrNeutral(u1, cs[i]) == ScoreOrNeutral(u2, cs[i])
    requires forall i :: 0 <= i < |cs| ==> ScoreOrNeutral(p1, cs[i]) == ScoreOrNeutral(p2, cs[i])
    ensures TotalDifference(u1, p1, cs) == TotalDifference(u2, p2, cs)
  {
    if |cs| > 0 {
      TotalDifferenceCongruent(u1, p1, u2, p2, cs[..|cs| - 1]);
    }
  }

  lemma {:induction false} TotalDifferenceSymmetric(a: PolicyScores, b: PolicyScores, cs: seq<PolicyCategory>)
    ensures TotalDifference(a, b, cs) == TotalDifference(b, a, cs)
  {
    if |cs| > 0 {
      TotalDifferenceSymmetric(a, b, cs[..|cs| - 1]);
    }
  }

  lemma {:induction false} TotalDifferenceSelf(a: PolicyScores, cs: seq<PolicyCategory>)
    ensures TotalDifference(a, a, cs) == 0.0
  {
    if |cs| > 0 {
      TotalDifferenceSelf(a, cs[..|cs| - 1]);
    }
  }

  /** When every term of `p` is at most the matching term of `q`, so is the total. */
  lemma {:induction false} TotalDifferenceMonotone(u: PolicyScores, p: PolicyScores, q: PolicyScores, cs: seq<PolicyCategory>)
    requires forall c :: Abs(ScoreOrNeutral(u, c) - ScoreOrNeutral(p, c)) <= Abs(ScoreOrNeutral(u, c) - ScoreOrNeutral(q, c))
    ensures TotalDifference(u, p, cs) <= TotalDifference(u, q, cs)
  {
    if |cs| > 0 {
      TotalDifferenceMonotone(u, p, q, cs[..|cs| - 1]);
    }
  }

  /** `d` added up `n` times. */
  function Repeat(d: real, n: nat): real {
    if n == 0 then 0.0 else Repeat(d, n - 1) + d
  }

  lemma RepeatEight(d: real)
    ensures Repeat(d, 8) == 8.0 * d
  {
    assert Repeat(d, 1) == d;
    assert Repeat(d, 2) == 2.0 * d;
    assert Repeat(d, 3) == 3.0 * d;
    assert Repeat(d, 4) == 4.0 * d;
    assert Repeat(d, 5) == 5.0 * d;
    assert Repeat(d, 6) == 6.0 * d;
    assert Repeat(d, 7) == 7.0 * d;
  }

  /** When every category differs by exactly `d`, the total is `d` once per category. */
  lemma {:induction false} TotalDifferenceUniform(u: PolicyScores, p: PolicyScores, cs: seq<PolicyCategory>, d: real)
    requires forall c :: Abs(ScoreOrNeutral(u, c) - ScoreOrNeutral(p, c)) == d
    ensures TotalDifference(u, p, cs) == Repeat(d, |cs|)
  {
    if |cs| > 0 {
      var c := cs[|cs| - 1];
      TotalDifferenceUniform(u, p, cs[..|cs| - 1], d);
      assert Abs(ScoreOrNeutral(u, c) - ScoreOrNeutral(p, c)) == d;
    }
  }

  /** Identical score records match 100%. */
  lemma MatchSelf(scores: PolicyScores)
    ensures MatchScores(scores, scores) == 100
  {
    TotalDifferenceSelf(scores, PolicyCategories);
    RoundUnique(100.0, 100);
  }

  /** The match is symmetric in its two score records. */
  lemma MatchSymmetric(a: PolicyScores, b: PolicyScores)
    ensures MatchScores(a, b) == MatchScores(b, a)
  {
    TotalDifferenceSymmetric(a, b, PolicyCategories);
  }

  /** Only the neutralised scores matter: records that agree after `|| 50` match everything alike. */
  lemma MatchReadsNeutralised(u1: PolicyScores, u2: PolicyScores, p: PolicyScores)
    requires forall c :: ScoreOrNeutral(u1, c) == ScoreOrNeutral(u2, c)
    ensures MatchScores(u1, p) == MatchScores(u2, p)
  {
    TotalDifferenceCongruent(u1, p, u2, p, PolicyCategories);
  }

  /** A score of 0 and an absent score both count as 50, on either side. */
  lemma ZeroAndAbsentAreNeutral(u: PolicyScores, p: PolicyScores, c: PolicyCategory)
    ensures MatchScores(u[c := 0.0], p) == MatchScores(u[c := 50.0], p)
    ensures MatchScores(u - {c}, p) == MatchScores(u[c := 50.0], p)
    ensures MatchScores(u, p[c := 0.0]) == MatchScores(u, p[c := 50.0])
    ensures MatchScores(u, p - {c}) == MatchScores(u, p[c := 50.0])
  {
    MatchReadsNeutralised(u[c := 0.0], u[c := 50.0], p);
    MatchReadsNeutralised(u - {c}, u[c := 50.0], p);
    MatchReadsNeutralised(p[c := 0.0], p[c := 50.0], u);
    MatchSymmetric(u, p[c := 0.0]);
    MatchSymmetric(u, p[c := 50.0]);
    MatchReadsNeutralised(p - {c}, p[c := 50.0], u);
    MatchSymmetric(u, p - {c});
  }

  /** A politician at least as close as another in every category matches at least as well. */
  lemma CloserMatchesBetter(u: PolicyScores, p: PolicyScores, q: PolicyScores)
    requires forall c :: Abs(ScoreOrNeutral(u, c) - ScoreOrNeutral(p, c)) <= Abs(ScoreOrNeutral(u, c) - ScoreOrNeutral(q, c))
    ensures MatchScores(u, p) >= MatchScores(u, q)
  {
    TotalDifferenceMonotone(u, p, q, PolicyCategories);
  }

  /**
   * Scores all 0 against scores all 100 match 50%, not 0%: the zeros are
   * read as 50, so every category differs by 50.
   */
  lemma AllZeroAgainstAllHundred(u: PolicyScores, p: PolicyScores)
    requires forall c :: c in u && u[c] == 0.0
    requires forall c :: c in p && p[c] == 100.0
    ensures MatchScores(u, p) == 50
  {
    TotalDifferenceUniform(u, p, PolicyCategories, 50.0);
    RepeatEight(50.0);
    RoundUnique(50.0, 50);
  }

  /** A uniform difference of `d <= 100` in every category gives a match of `100 - d`, rounded. */
  lemma UniformDifference(u: PolicyScores, p: PolicyScores, d: real)
    requires forall c :: Abs(ScoreOrNeutral(u, c) - ScoreOrNeutral(p, c)) == d
    requires d <= 100.0
    ensures MatchScores(u, p) == Round(100.0 - d)
  {
    TotalDifferenceUniform(u, p, PolicyCategories, d);
    RepeatEight(d);
  }
}
