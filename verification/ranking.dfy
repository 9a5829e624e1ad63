/**
 * The grouping and ranking body of the results page
 * (src/app/results/page.tsx): every politician is scored against the user,
 * the results are sorted by match, grouped by office, and laid out in the
 * fixed order of the offices on the ballot.
 */
module Ranking {
  import opened Types
  import opened Matching
  import opened Sorting

  /** The offices the results page lists, in display order. */
  const OfficeOrder: seq<string> := [
    "Governor of Alabama",
    "Lieutenant Governor of Alabama",
    "Attorney General of Alabama",
    "Alabama Secretary of State",
    "Alabama Treasurer",
    "Alabama Auditor",
    "Alabama Commissioner of Agriculture and Industries",
    "Alabama Public Service Commission Place 1",
    "Alabama Public Service Commission Place 2",
    "Alabama State Board of Education",
    "U.S. Senate",
    "United States House of Representatives District 1",
    "United States House of Representatives District 2",
    "United States House of Representatives District 3",
    "United States House of Representatives District 4",
    "United States House of Representatives District 5",
    "United States House of Representatives District 6",
    "United States House of Representatives District 7"
  ]

  const DisabledDescription := "Character profile generation is currently disabled."

  function ToResult(userScores: PolicyScores, p: Politician): PoliticianResult {
    PoliticianResult(p, MatchPercentage(userScores, p), DisabledDescription)
  }

  /** `politicians.map(...)`: one result per politician, in order. */
  function ToResults(userScores: PolicyScores, ps: seq<Politician>): (r: seq<PoliticianResult>)
    ensures |r| == |ps|
    ensures forall i :: 0 <= i < |ps| ==> r[i] == ToResult(userScores, ps[i])
  {
    seq(|ps|, i requires 0 <= i < |ps| => ToResult(userScores, ps[i]))
  }

  /** `(a, b) => b.matchPercentage - a.matchPercentage`. */
  function CompareByMatch(a: PoliticianResult, b: PoliticianResult): int {
    b.matchPercentage - a.matchPercentage
  }

  /** The key `CompareByMatch` sorts by: best match first. */
  function NegMatch(r: PoliticianResult): int {
    -r.matchPercentage
  }

  /** `groupBy(allResults, 'politician.office')[office]`, as an order-keeping filter. */
  function InOffice(office: string): PoliticianResult -> bool {
    (r: PoliticianResult) => r.politician.office == office
  }

  /** `officeOrder.includes(office.office)`. */
  function Listed(order: seq<string>): OfficeResult -> bool {
    (e: OfficeResult) => e.office in order
  }

  function RankAll(userScores: PolicyScores, ps: seq<Politician>): seq<PoliticianResult> {
    SortWith(ToResults(userScores, ps), CompareByMatch)
  }

  /**
   * The entry of one office: its group of the match-sorted results, sorted a
   * second time. That is the office's results sorted best match first, ties
   * in politician-list order.
   */
  function RankedEntry(userScores: PolicyScores, ps: seq<Politician>, office: string): (e: OfficeResult)
    ensures e.office == office
    ensures e.results == OfficeRanking(userScores, ps, office)
  {
    var rs := ToResults(userScores, ps);
    var all := RankAll(userScores, ps);
    var p := InOffice(office);
    CompareByMatchOrders(rs);
    SortWithSorted(rs, CompareByMatch, NegMatch);
    FilterSorted(all, p, NegMatch);
    CompareByMatchOrders(Filter(all, p));
    SortSortedIsIdentity(Filter(all, p), CompareByMatch, NegMatch);
    FilterSortCommute(rs, p, CompareByMatch, NegMatch);
    OfficeResult(office, SortWith(Filter(all, p), CompareByMatch))
  }

  /**
   * The body of `Results`, over a given office order: one entry per office of
   * the order, in that order, each holding the office's results sorted best
   * match first. The trailing filter removes nothing.
   */
  function GroupAndRank(userScores: PolicyScores, ps: seq<Politician>, order: seq<string>): (r: seq<OfficeResult>)
    ensures |r| == |order|
    ensures forall i :: 0 <= i < |order| ==> r[i].office == order[i]
    ensures forall i :: 0 <= i < |order| ==> r[i].results == OfficeRanking(userScores, ps, order[i])
  {
    var entries := seq(|order|, i requires 0 <= i < |order| => RankedEntry(userScores, ps, order[i]));
    FilterAll(entries, Listed(order));
    Filter(entries, Listed(order))
  }

  /** The results page's entries: one per office of `OfficeOrder`, in that order. */
  function Results(userScores: PolicyScores, ps: seq<Politician>): (r: seq<OfficeResult>)
    ensures |r| == |OfficeOrder|
    ensures forall i :: 0 <= i < |OfficeOrder| ==> r[i].office == OfficeOrder[i]
    ensures forall i :: 0 <= i < |OfficeOrder| ==> r[i].results == OfficeRanking(userScores, ps, OfficeOrder[i])
  {
    GroupAndRank(userScores, ps, OfficeOrder)
  }

  /** The results of one office, sorted best match first, as a direct definition. */
  function OfficeRanking(userScores: PolicyScores, ps: seq<Politician>, office: string): seq<PoliticianResult> {
    SortWith(Filter(ToResults(userScores, ps), InOffice(office)), CompareByMatch)
  }

  // ---------------------------------------------------------------------------
  // Lemmas
  // ---------------------------------------------------------------------------

  lemma OfficeOrderDistinct()
    ensures |OfficeOrder| == 18
    ensures forall i, j :: 0 <= i < j < |OfficeOrder| ==> OfficeOrder[i] != OfficeOrder[j]
  {
  }

  lemma CompareByMatchOrders(s: seq<PoliticianResult>)
    ensures OrdersByKey(CompareByMatch, NegMatch, s)
  {
  }

  /** Every result comes from a politician of the list, scored against the user. */
  lemma ToResultsMembers(userScores: PolicyScores, ps: seq<Politician>)
    ensures forall r :: r in ToResults(userScores, ps) ==> r.politician in ps && r == ToResult(userScores, r.politician)
  {
    var rs := ToResults(userScores, ps);
    forall r | r in rs
      ensures r.politician in ps && r == ToResult(userScores, r.politician)
    {
      var i :| 0 <= i < |rs| && rs[i] == r;
    }
  }

  /** The ranking of an office is a reordering of exactly the results of the politicians holding that office string. */
  lemma OfficeRankingMembers(userScores: PolicyScores, ps: seq<Politician>, office: string)
    ensures multiset(OfficeRanking(userScores, ps, office)) == multiset(Filter(ToResults(userScores, ps), InOffice(office)))
    ensures forall r :: r in OfficeRanking(userScores, ps, office) ==>
      && r.politician in ps
      && r.politician.office == office
      && r.matchPercentage == MatchPercentage(userScores, r.politician)
      && r.rpgDescription == DisabledDescription
    ensures forall p :: p in ps && p.office == office ==> ToResult(userScores, p) in OfficeRanking(userScores, ps, office)
  {
    var rs := ToResults(userScores, ps);
    var group := Filter(rs, InOffice(office));
    var ranked := OfficeRanking(userScores, ps, office);
    assert forall r :: r in ranked <==> r in multiset(ranked);
    assert forall r :: r in group <==> r in multiset(group);
    ToResultsMembers(userScores, ps);
    forall p | p in ps && p.office == office
      ensures ToResult(userScores, p) in group
    {
      var i :| 0 <= i < |ps| && ps[i] == p;
      assert rs[i] in rs;
    }
  }

  /** Within an office, matches never increase, and equal matches keep the order of the politician list. */
  lemma OfficeRankingOrder(userScores: PolicyScores, ps: seq<Politician>, office: string)
    ensures var ranked := OfficeRanking(userScores, ps, office);
      forall i, j :: 0 <= i < j < |ranked| ==> ranked[i].matchPercentage >= ranked[j].matchPercentage
    ensures KeepsTies(OfficeRanking(userScores, ps, office), Filter(ToResults(userScores, ps), InOffice(office)), NegMatch)
  {
    var group := Filter(ToResults(userScores, ps), InOffice(office));
    CompareByMatchOrders(group);
    SortWithSorted(group, CompareByMatch, NegMatch);
  }

  /** A politician whose office is not in the order appears in no entry. */
  lemma UnlistedOfficeDropped(userScores: PolicyScores, ps: seq<Politician>, order: seq<string>, p: Politician)
    requires p.office !in order
    ensures forall i, r :: 0 <= i < |GroupAndRank(userScores, ps, order)| && r in GroupAndRank(userScores, ps, order)[i].results ==>
      r.politician != p
  {
    forall i | 0 <= i < |order|
      ensures forall r :: r in GroupAndRank(userScores, ps, order)[i].results ==> r.politician.office == order[i]
    {
      OfficeRankingMembers(userScores, ps, order[i]);
    }
  }

  /** An office nobody holds gets an entry with no results. */
  lemma VacantOfficeIsEmpty(userScores: PolicyScores, ps: seq<Politician>, order: seq<string>, i: nat)
    requires i < |order|
    requires forall p :: p in ps ==> p.office != order[i]
    ensures |GroupAndRank(userScores, ps, order)| == |order| && GroupAndRank(userScores, ps, order)[i].results == []
  {
    var rs := ToResults(userScores, ps);
    var group := Filter(rs, InOffice(order[i]));
    forall r | r in rs
      ensures !InOffice(order[i])(r)
    {
      var j :| 0 <= j < |rs| && rs[j] == r;
      assert ps[j] in ps;
    }
    FilterNone(rs, InOffice(order[i]));
  }

  // ---------------------------------------------------------------------------
  // Counting
  // ---------------------------------------------------------------------------

  /** How many politicians hold `office`. */
  function CountIn(ps: seq<Politician>, office: string): nat {
    if |ps| == 0 then 0 else (if ps[0].office == office then 1 else 0) + CountIn(ps[1..], office)
  }

  /** How many politicians hold an office of the order. */
  function CountListed(ps: seq<Politician>, order: seq<string>): nat {
    if |ps| == 0 then 0 else (if ps[0].office in order then 1 else 0) + CountListed(ps[1..], order)
  }

  /** The number of results over all entries. */
  function TotalResults(entries: seq<OfficeResult>): nat {
    if |entries| == 0 then 0 else TotalResults(entries[..|entries| - 1]) + |entries[|entries| - 1].results|
  }

  /** The number of politicians over the offices of the order, office by office. */
  function SumCounts(ps: seq<Politician>, order: seq<string>): nat {
    if |order| == 0 then 0 else SumCounts(ps, order[..|order| - 1]) + CountIn(ps, order[|order| - 1])
  }

  lemma {:induction false} GroupSize(userScores: PolicyScores, ps: seq<Politician>, office: string)
    ensures |Filter(ToResults(userScores, ps), InOffice(office))| == CountIn(ps, office)
  {
    if |ps| > 0 {
      var rs := ToResults(userScores, ps);
      assert rs[1..] == ToResults(userScores, ps[1..]);
      GroupSize(userScores, ps[1..], office);
    }
  }

  lemma {:induction false} CountListedSnoc(ps: seq<Politician>, order: seq<string>, office: string)
    requires office !in order
    ensures CountListed(ps, order + [office]) == CountListed(ps, order) + CountIn(ps, office)
  {
    if |ps| > 0 {
      CountListedSnoc(ps[1..], order, office);
    }
  }

  /** With no office listed twice, counting office by office counts every listed politician once. */
  lemma {:induction false} SumCountsIsCountListed(ps: seq<Politician>, order: seq<string>)
    requires forall i, j :: 0 <= i < j < |order| ==> order[i] != order[j]
    ensures SumCounts(ps, order) == CountListed(ps, order)
  {
    if |order| == 0 {
      CountListedNone(ps, order);
    } else {
      var init := order[..|order| - 1];
      var last := order[|order| - 1];
      SumCountsIsCountListed(ps, init);
      assert order == init + [last];
      CountListedSnoc(ps, init, last);
    }
  }

  lemma {:induction false} CountListedNone(ps: seq<Politician>, order: seq<string>)
    requires |order| == 0
    ensures CountListed(ps, order) == 0
  {
    if |ps| > 0 {
      CountListedNone(ps[1..], order);
    }
  }

  lemma {:induction false} TotalResultsByOffice(userScores: PolicyScores, ps: seq<Politician>, entries: seq<OfficeResult>, order: seq<string>)
    requires |entries| == |order|
    requires forall i :: 0 <= i < |order| ==> |entries[i].results| == CountIn(ps, order[i])
    ensures TotalResults(entries) == SumCounts(ps, order)
  {
    if |order| > 0 {
      TotalResultsByOffice(userScores, ps, entries[..|entries| - 1], order[..|order| - 1]);
    }
  }

  /** With no office listed twice, the entries hold one result per politician whose office is listed. */
  lemma TotalResultCount(userScores: PolicyScores, ps: seq<Politician>, order: seq<string>)
    requires forall i, j :: 0 <= i < j < |order| ==> order[i] != order[j]
    ensures TotalResults(GroupAndRank(userScores, ps, order)) == CountListed(ps, order)
  {
    var entries := GroupAndRank(userScores, ps, order);
    forall i | 0 <= i < |order|
      ensures |entries[i].results| == CountIn(ps, order[i])
    {
      OfficeRankingMembers(userScores, ps, order[i]);
      GroupSize(userScores, ps, order[i]);
    }
    TotalResultsByOffice(userScores, ps, entries, order);
    SumCountsIsCountListed(ps, order);
  }

  /** The results page's own office list: eighteen entries, and every listed politician appears exactly once. */
  lemma ResultsCount(userScores: PolicyScores, ps: seq<Politician>)
    ensures |Results(userScores, ps)| == 18
    ensures TotalResults(Results(userScores, ps)) == CountListed(ps, OfficeOrder)
  {
    OfficeOrderDistinct();
    TotalResultCount(userScores, ps, OfficeOrder);
  }
}
