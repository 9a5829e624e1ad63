/**
 * The per-office sections of the results list
 * (src/components/app/ResultsAll.tsx): an anchor id made from the office
 * name, then either the placeholder text or the best match with rank 1 and,
 * when there are more, an accordion with the next two ranked 2 and 3.
 */
module ResultsAll {
  import opened Types
  import opened Text

  const NoCandidatesMessage := "There are no official candidates for this office yet."

  /** `office.replace(/\s+/g, "-").toLowerCase()`. */
  function AnchorId(office: string): (id: string)
    ensures forall c :: c in id ==> !IsWhitespace(c) && !IsAsciiUpper(c)
    ensures |id| <= |office|
  {
    var dashed := CollapseRuns(office, IsWhitespace, '-', false);
    var id := Lower(dashed);
    assert forall c :: c in id ==> exists i :: 0 <= i < |dashed| && c == LowerChar(dashed[i]);
    id
  }

  /** A politician card and the rank badge it shows. */
  datatype Card = Card(result: PoliticianResult, rank: int)

  datatype Body =
    | NoCandidates(message: string)
    | Ranked(top: Card, accordion: Option<seq<Card>>)

  datatype Section = Section(id: string, heading: string, body: Body)

  function Min(a: int, b: int): int {
    if a <= b then a else b
  }

  /** `results.slice(1, 3)`, each card ranked `index + 2`. */
  function AccordionCards(results: seq<PoliticianResult>): (cards: seq<Card>)
    requires |results| > 1
    ensures |cards| == Min(3, |results|) - 1
    ensures forall i :: 0 <= i < |cards| ==> cards[i] == Card(results[i + 1], i + 2)
  {
    var shown := results[1..Min(3, |results|)];
    seq(|shown|, i requires 0 <= i < |shown| => Card(shown[i], i + 2))
  }

  /**
   * An office's body: the "no candidates" message when there are no results;
   * otherwise the best result ranked 1, and an accordion of the runners-up
   * exactly when there are several results.
   */
  function OfficeBody(results: seq<PoliticianResult>): (b: Body)
    ensures b.NoCandidates? <==> |results| == 0
    ensures b.NoCandidates? ==> b.message == NoCandidatesMessage
    ensures b.Ranked? ==> b.top == Card(results[0], 1) && (b.accordion.Some? <==> |results| > 1)
  {
    if |results| > 0 then
      Ranked(Card(results[0], 1), if |results| > 1 then Some(AccordionCards(results)) else None)
    else NoCandidates(NoCandidatesMessage)
  }

  /** One office's section: its name as heading, an anchor id free of whitespace, and the placeholder exactly when it has no results. */
  function OfficeSection(r: OfficeResult): (s: Section)
    ensures s.heading == r.office
    ensures forall c :: c in s.id ==> !IsWhitespace(c) && !IsAsciiUpper(c)
    ensures s.body.NoCandidates? <==> |r.results| == 0
    ensures |r.results| > 0 ==> s.body.top == Card(r.results[0], 1)
  {
    Section(AnchorId(r.office), r.office, OfficeBody(r.results))
  }

  /** `officeResults.map(...)`: one section per office, in order. */
  function ResultsAll(officeResults: seq<OfficeResult>): (ss: seq<Section>)
    ensures |ss| == |officeResults|
    ensures forall i :: 0 <= i < |ss| ==> ss[i] == OfficeSection(officeResults[i])
  {
    seq(|officeResults|, i requires 0 <= i < |officeResults| => OfficeSection(officeResults[i]))
  }

  /** Every card of a body, top card first. */
  function Cards(b: Body): seq<Card> {
    match b
    case NoCandidates(_) => []
    case Ranked(top, accordion) => [top] + accordion.GetOr([])
  }

  // ---------------------------------------------------------------------------
  // Lemmas
  // ---------------------------------------------------------------------------

  /**
   * The cards are the first results, at most three, each ranked by its
   * position: the result at position `i` carries rank `i + 1`.
   */
  lemma CardsAreTopThree(results: seq<PoliticianResult>)
    ensures |Cards(OfficeBody(results))| == Min(3, |results|)
    ensures forall i :: 0 <= i < |Cards(OfficeBody(results))| ==>
      Cards(OfficeBody(results))[i] == Card(results[i], i + 1)
  {
    if |results| > 1 {
      var more := AccordionCards(results);
      assert Cards(OfficeBody(results)) == [Card(results[0], 1)] + more;
      assert forall i :: 1 <= i < 1 + |more| ==> ([Card(results[0], 1)] + more)[i] == more[i - 1];
    }
  }

  /** Replacing whitespace runs and lowercasing again changes nothing. */
  lemma AnchorIdIdempotent(office: string)
    ensures AnchorId(AnchorId(office)) == AnchorId(office)
  {
    var id := AnchorId(office);
    CollapseRunsWithoutClass(id, IsWhitespace, '-', false);
    LowerIdentity(id);
  }

  /**
   * For words separated by single spaces, the anchor id is the lowercased
   * words joined by hyphens.
   */
  lemma AnchorIdOfWords(ws: seq<string>)
    requires |ws| >= 1
    requires forall w :: w in ws ==> |w| > 0 && forall c :: c in w ==> !IsWhitespace(c)
    ensures AnchorId(Join(ws, ' ')) == Join(LowerEach(ws), '-')
  {
    CollapseRunsJoin(ws, IsWhitespace, ' ', '-');
    LowerJoin(ws, '-');
  }
}
