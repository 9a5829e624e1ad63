/**
 * The row mappings of src/lib/db-data.ts. The rows the SQL queries return
 * are the inputs; the queries themselves are not modelled.
 *
 * `getPoliticiansFromDb` folds flat (politician, category, score) rows into
 * politicians. Its `Map` keyed by id, which iterates in insertion order, is
 * modelled as a sequence of politicians with distinct ids.
 */
module DbRows {
  import opened Types

  // ---------------------------------------------------------------------------
  // Questions
  // ---------------------------------------------------------------------------

  datatype QuestionRow = QuestionRow(id: int, text: string, category: PolicyCategory, isInverted: int)

  /** The row-to-question mapping: `isInverted` is `!!row.is_inverted`. */
  function QuestionOfRow(row: QuestionRow): (q: Question)
    ensures q.id == row.id && q.text == row.text && q.category == row.category
    ensures q.isInverted <==> row.isInverted != 0
  {
    Question(row.id, row.text, row.category, row.isInverted != 0)
  }

  function QuestionsOfRows(rows: seq<QuestionRow>): (qs: seq<Question>)
    ensures |qs| == |rows|
    ensures forall i :: 0 <= i < |rows| ==> qs[i] == QuestionOfRow(rows[i])
  {
    seq(|rows|, i requires 0 <= i < |rows| => QuestionOfRow(rows[i]))
  }

  // ---------------------------------------------------------------------------
  // Politicians
  // ---------------------------------------------------------------------------

  datatype ScoreRow = ScoreRow(
    id: int,
    name: string,
    office: string,
    avatarSlug: string,
    realPhotoUrl: string,
    longDescription: string,
    website: Option<string>,
    category: PolicyCategory,
    score: real)

  /** Every category at 0. */
  function ZeroScores(): (z: PolicyScores)
    ensures TotalScores(z)
    ensures forall c :: z[c] == 0.0
  {
    CategoriesAreCanonical();
    map c: PolicyCategory | c in PolicyCategories :: 0.0
  }

  /** The politician first created for a row, before its score is written. */
  function NewPolitician(row: ScoreRow): Politician {
    Politician(row.id, row.name, row.office, row.avatarSlug, row.realPhotoUrl,
      ZeroScores(), row.longDescription, row.website.GetOr(""))
  }

  function SetScore(p: Politician, c: PolicyCategory, score: real): Politician {
    p.(scores := p.scores[c := score])
  }

  /** `byId.has(id)` / `byId.get(id)`: the position of the politician with that id. */
  function FindIndex(ps: seq<Politician>, id: int): (r: Option<nat>)
    ensures r.Some? ==> r.value < |ps| && ps[r.value].id == id
    ensures r.None? <==> forall i :: 0 <= i < |ps| ==> ps[i].id != id
  {
    if |ps| == 0 then None
    else if ps[0].id == id then Some(0)
    else match FindIndex(ps[1..], id)
      case None => None
      case Some(i) => Some(i + 1)
  }

  /** One turn of the loop body: create the politician on its first row, then write the row's score. */
  function Absorb(ps: seq<Politician>, row: ScoreRow): seq<Politician> {
    match FindIndex(ps, row.id)
    case None => ps + [SetScore(NewPolitician(row), row.category, row.score)]
    case Some(i) => ps[i := SetScore(ps[i], row.category, row.score)]
  }

  /**
   * `getPoliticiansFromDb` after the query: the fold over the rows, then
   * `Array.from(byId.values())`. It yields one politician per distinct id, in
   * order of first appearance; its fields come from the id's first row (a null
   * website becoming ""), and each score from the last row for that id and
   * category, or 0 when there is none.
   */
  function PoliticiansOfRows(rows: seq<ScoreRow>): (ps: seq<Politician>)
    ensures FoldResult(rows, ps)
    ensures forall i, j :: 0 <= i < j < |ps| ==> ps[i].id != ps[j].id
  {
    if |rows| == 0 then []
    else
      var init := rows[..|rows| - 1];
      var row := rows[|rows| - 1];
      var folded := PoliticiansOfRows(init);
      AbsorbStep(rows, folded);
      Absorb(folded, row)
  }

  /** `all.find(p => p.id === id) ?? null`. */
  function PoliticianById(rows: seq<ScoreRow>, id: int): (r: Option<Politician>)
    ensures r.Some? ==> r.value.id == id && r.value in PoliticiansOfRows(rows)
    ensures r.None? <==> forall p :: p in PoliticiansOfRows(rows) ==> p.id != id
  {
    var ps := PoliticiansOfRows(rows);
    match FindIndex(ps, id)
    case None => None
    case Some(i) => Some(ps[i])
  }

  // ---------------------------------------------------------------------------
  // Reference definitions over the rows
  // ---------------------------------------------------------------------------

  /** The position of the first row for `id`. */
  function FirstIndex(rows: seq<ScoreRow>, id: int): (r: Option<nat>)
    ensures r.Some? ==> r.value < |rows| && rows[r.value].id == id
    ensures r.Some? ==> forall k :: 0 <= k < r.value ==> rows[k].id != id
    ensures r.None? <==> forall k :: 0 <= k < |rows| ==> rows[k].id != id
  {
    if |rows| == 0 then None
    else if rows[0].id == id then Some(0)
    else match FirstIndex(rows[1..], id)
      case None => None
      case Some(i) => Some(i + 1)
  }

  /** The score of the last row for `id` and `c`, if any. */
  function LastScore(rows: seq<ScoreRow>, id: int, c: PolicyCategory): Option<real> {
    if |rows| == 0 then None
    else
      var row := rows[|rows| - 1];
      if row.id == id && row.category == c then Some(row.score) else LastScore(rows[..|rows| - 1], id, c)
  }

  /** The politician as the rows describe it: fields from its first row, each score from its last row, 0 without one. */
  predicate Describes(rows: seq<ScoreRow>, p: Politician) {
    && FirstIndex(rows, p.id).Some?
    && var first := rows[FirstIndex(rows, p.id).value];
    && p.name == first.name
    && p.office == first.office
    && p.avatarUrl == first.avatarSlug
    && p.realPhotoUrl == first.realPhotoUrl
    && p.longDescription == first.longDescription
    && p.website == first.website.GetOr("")
    && TotalScores(p.scores)
    && forall c :: p.scores[c] == LastScore(rows, p.id, c).GetOr(0.0)
  }

  /** The politicians appear in the order of their ids' first rows. */
  predicate InFirstAppearanceOrder(rows: seq<ScoreRow>, ps: seq<Politician>) {
    forall i, j :: 0 <= i < j < |ps| ==>
      && FirstIndex(rows, ps[i].id).Some?
      && FirstIndex(rows, ps[j].id).Some?
      && FirstIndex(rows, ps[i].id).value < FirstIndex(rows, ps[j].id).value
  }

  /** Every id of the rows has a politician. */
  predicate CoversRows(rows: seq<ScoreRow>, ps: seq<Politician>) {
    forall k :: 0 <= k < |rows| ==> FindIndex(ps, rows[k].id).Some?
  }

  predicate AllDescribed(rows: seq<ScoreRow>, ps: seq<Politician>) {
    forall i :: 0 <= i < |ps| ==> Describes(rows, ps[i])
  }

  /** What the fold produces: one politician per id of the rows, in order of first appearance, as the rows describe it. */
  predicate FoldResult(rows: seq<ScoreRow>, ps: seq<Politician>) {
    InFirstAppearanceOrder(rows, ps) && CoversRows(rows, ps) && AllDescribed(rows, ps)
  }

  // ---------------------------------------------------------------------------
  // Lemmas
  // ---------------------------------------------------------------------------

  lemma {:induction false} FirstIndexSnoc(rows: seq<ScoreRow>, row: ScoreRow, id: int)
    ensures FirstIndex(rows + [row], id) ==
      if FirstIndex(rows, id).Some? then FirstIndex(rows, id)
      else if row.id == id then Some(|rows|)
      else None
  {
    if |rows| > 0 {
      assert (rows + [row])[1..] == rows[1..] + [row];
      FirstIndexSnoc(rows[1..], row, id);
    }
  }

  lemma LastScoreAbsent(rows: seq<ScoreRow>, id: int, c: PolicyCategory)
    requires forall k :: 0 <= k < |rows| ==> rows[k].id != id
    ensures LastScore(rows, id, c) == None
  {
    if |rows| > 0 {
      LastScoreAbsent(rows[..|rows| - 1], id, c);
    }
  }

  lemma LastScoreSnoc(rows: seq<ScoreRow>, row: ScoreRow, id: int, c: PolicyCategory)
    ensures LastScore(rows + [row], id, c) ==
      if row.id == id && row.category == c then Some(row.score) else LastScore(rows, id, c)
  {
    assert (rows + [row])[..|rows|] == rows;
  }

  /** A row for another id leaves a politician's description as it was. */
  lemma DescribesOtherRow(rows: seq<ScoreRow>, row: ScoreRow, p: Politician)
    requires Describes(rows, p) && p.id != row.id
    ensures Describes(rows + [row], p)
  {
    FirstIndexSnoc(rows, row, p.id);
    forall c
      ensures LastScore(rows + [row], p.id, c) == LastScore(rows, p.id, c)
    {
      LastScoreSnoc(rows, row, p.id, c);
    }
  }

  /** A later row for the politician's id overwrites exactly the score of its category. */
  lemma DescribesWrite(rows: seq<ScoreRow>, row: ScoreRow, p: Politician)
    requires Describes(rows, p) && p.id == row.id
    ensures Describes(rows + [row], SetScore(p, row.category, row.score))
  {
    FirstIndexSnoc(rows, row, p.id);
    forall c
      ensures LastScore(rows + [row], p.id, c) ==
        if c == row.category then Some(row.score) else LastScore(rows, p.id, c)
    {
      LastScoreSnoc(rows, row, p.id, c);
    }
  }

  /** The first row of an id creates a politician the extended rows describe. */
  lemma DescribesNew(rows: seq<ScoreRow>, row: ScoreRow)
    requires forall k :: 0 <= k < |rows| ==> rows[k].id != row.id
    ensures Describes(rows + [row], SetScore(NewPolitician(row), row.category, row.score))
  {
    FirstIndexSnoc(rows, row, row.id);
    assert FirstIndex(rows, row.id).None?;
    assert (rows + [row])[|rows|] == row;
    forall c
      ensures LastScore(rows + [row], row.id, c) ==
        if c == row.category then Some(row.score) else None
    {
      LastScoreSnoc(rows, row, row.id, c);
      LastScoreAbsent(rows, row.id, c);
    }
  }

  /** No two politicians of a fold result share an id. */
  lemma FoldResultDistinct(rows: seq<ScoreRow>, ps: seq<Politician>)
    requires InFirstAppearanceOrder(rows, ps)
    ensures forall i, j :: 0 <= i < j < |ps| ==> ps[i].id != ps[j].id
  {
  }

  /** The ids of the rows already folded, when the new row's id has no politician yet. */
  lemma NewIdIsFresh(rows: seq<ScoreRow>, ps: seq<Politician>, row: ScoreRow)
    requires CoversRows(rows, ps)
    requires FindIndex(ps, row.id).None?
    ensures forall k :: 0 <= k < |rows| ==> rows[k].id != row.id
  {
    forall k | 0 <= k < |rows|
      ensures rows[k].id != row.id
    {
      assert FindIndex(ps, rows[k].id).Some?;
    }
  }

  lemma AbsorbNewDescribed(rows: seq<ScoreRow>, ps: seq<Politician>, row: ScoreRow)
    requires AllDescribed(rows, ps)
    requires forall i :: 0 <= i < |ps| ==> ps[i].id != row.id
    requires forall k :: 0 <= k < |rows| ==> rows[k].id != row.id
    ensures AllDescribed(rows + [row], ps + [SetScore(NewPolitician(row), row.category, row.score)])
  {
    var ps' := ps + [SetScore(NewPolitician(row), row.category, row.score)];
    forall i | 0 <= i < |ps'|
      ensures Describes(rows + [row], ps'[i])
    {
      if i < |ps| {
        DescribesOtherRow(rows, row, ps[i]);
      } else {
        DescribesNew(rows, row);
      }
    }
  }

  lemma AbsorbNewCovers(rows: seq<ScoreRow>, ps: seq<Politician>, row: ScoreRow)
    requires CoversRows(rows, ps)
    ensures CoversRows(rows + [row], ps + [SetScore(NewPolitician(row), row.category, row.score)])
  {
    var all := rows + [row];
    var ps' := ps + [SetScore(NewPolitician(row), row.category, row.score)];
    forall k | 0 <= k < |all|
      ensures FindIndex(ps', all[k].id).Some?
    {
      if k < |rows| {
        var j := FindIndex(ps, rows[k].id).value;
        assert ps'[j].id == all[k].id;
      } else {
        assert ps'[|ps|].id == all[k].id;
      }
    }
  }

  lemma AbsorbNewOrder(rows: seq<ScoreRow>, ps: seq<Politician>, row: ScoreRow)
    requires InFirstAppearanceOrder(rows, ps) && AllDescribed(rows, ps)
    requires forall k :: 0 <= k < |rows| ==> rows[k].id != row.id
    ensures InFirstAppearanceOrder(rows + [row], ps + [SetScore(NewPolitician(row), row.category, row.score)])
  {
    var all := rows + [row];
    var ps' := ps + [SetScore(NewPolitician(row), row.category, row.score)];
    FirstIndexSnoc(rows, row, row.id);
    assert FirstIndex(all, ps'[|ps|].id) == Some(|rows|);
    forall i | 0 <= i < |ps|
      ensures FirstIndex(all, ps'[i].id) == FirstIndex(rows, ps[i].id)
      ensures FirstIndex(rows, ps[i].id).Some? && FirstIndex(rows, ps[i].id).value < |rows|
    {
      assert Describes(rows, ps[i]);
      FirstIndexSnoc(rows, row, ps[i].id);
    }
    forall i, j | 0 <= i < j < |ps'|
      ensures FirstIndex(all, ps'[i].id).Some? && FirstIndex(all, ps'[j].id).Some?
      ensures FirstIndex(all, ps'[i].id).value < FirstIndex(all, ps'[j].id).value
    {
      if j < |ps| {
        assert ps'[i] == ps[i] && ps'[j] == ps[j];
      }
    }
  }

  /** Appending the politician of a row whose id is new. */
  lemma AbsorbNew(rows: seq<ScoreRow>, ps: seq<Politician>, row: ScoreRow)
    requires FoldResult(rows, ps)
    requires FindIndex(ps, row.id).None?
    ensures FoldResult(rows + [row], Absorb(ps, row))
  {
    NewIdIsFresh(rows, ps, row);
    AbsorbNewDescribed(rows, ps, row);
    AbsorbNewCovers(rows, ps, row);
    AbsorbNewOrder(rows, ps, row);
  }

  lemma AbsorbExistingDescribed(rows: seq<ScoreRow>, ps: seq<Politician>, row: ScoreRow, n: nat)
    requires AllDescribed(rows, ps)
    requires n < |ps| && ps[n].id == row.id
    requires forall i :: 0 <= i < |ps| && i != n ==> ps[i].id != row.id
    ensures AllDescribed(rows + [row], ps[n := SetScore(ps[n], row.category, row.score)])
  {
    var ps' := ps[n := SetScore(ps[n], row.category, row.score)];
    forall i | 0 <= i < |ps'|
      ensures Describes(rows + [row], ps'[i])
    {
      if i == n {
        DescribesWrite(rows, row, ps[i]);
      } else {
        DescribesOtherRow(rows, row, ps[i]);
      }
    }
  }

  lemma AbsorbExistingCovers(rows: seq<ScoreRow>, ps: seq<Politician>, row: ScoreRow, n: nat)
    requires CoversRows(rows, ps)
    requires n < |ps| && ps[n].id == row.id
    ensures CoversRows(rows + [row], ps[n := SetScore(ps[n], row.category, row.score)])
  {
    var all := rows + [row];
    var ps' := ps[n := SetScore(ps[n], row.category, row.score)];
    forall k | 0 <= k < |all|
      ensures FindIndex(ps', all[k].id).Some?
    {
      if k < |rows| {
        var j := FindIndex(ps, rows[k].id).value;
        assert ps'[j].id == all[k].id;
      } else {
        assert ps'[n].id == all[k].id;
      }
    }
  }

  lemma AbsorbExistingOrder(rows: seq<ScoreRow>, ps: seq<Politician>, row: ScoreRow, n: nat)
    requires InFirstAppearanceOrder(rows, ps) && AllDescribed(rows, ps)
    requires n < |ps|
    ensures InFirstAppearanceOrder(rows + [row], ps[n := SetScore(ps[n], row.category, row.score)])
  {
    var ps' := ps[n := SetScore(ps[n], row.category, row.score)];
    forall i | 0 <= i < |ps|
      ensures ps'[i].id == ps[i].id
      ensures FirstIndex(rows + [row], ps'[i].id) == FirstIndex(rows, ps[i].id)
    {
      assert Describes(rows, ps[i]);
      FirstIndexSnoc(rows, row, ps[i].id);
    }
  }

  /** Folding in the last row keeps the fold result of the earlier rows a fold result, with distinct ids. */
  lemma AbsorbStep(rows: seq<ScoreRow>, ps: seq<Politician>)
    requires |rows| > 0
    requires FoldResult(rows[..|rows| - 1], ps)
    ensures FoldResult(rows, Absorb(ps, rows[|rows| - 1]))
    ensures var r := Absorb(ps, rows[|rows| - 1]);
      forall i, j :: 0 <= i < j < |r| ==> r[i].id != r[j].id
  {
    var init := rows[..|rows| - 1];
    var row := rows[|rows| - 1];
    assert rows == init + [row];
    if FindIndex(ps, row.id).None? {
      AbsorbNew(init, ps, row);
    } else {
      AbsorbExisting(init, ps, row);
    }
    FoldResultDistinct(rows, Absorb(ps, row));
  }

  /** Writing a row's score into the politician already created for its id. */
  lemma AbsorbExisting(rows: seq<ScoreRow>, ps: seq<Politician>, row: ScoreRow)
    requires FoldResult(rows, ps)
    requires FindIndex(ps, row.id).Some?
    ensures FoldResult(rows + [row], Absorb(ps, row))
  {
    var n := FindIndex(ps, row.id).value;
    FoldResultDistinct(rows, ps);
    AbsorbExistingDescribed(rows, ps, row, n);
    AbsorbExistingCovers(rows, ps, row, n);
    AbsorbExistingOrder(rows, ps, row, n);
  }

  /** The lookup by id finds a politician exactly when some row has that id, and it is the one the rows describe. */
  lemma PoliticianByIdSpec(rows: seq<ScoreRow>, id: int)
    ensures PoliticianById(rows, id).Some? <==> exists k :: 0 <= k < |rows| && rows[k].id == id
    ensures PoliticianById(rows, id).Some? ==> Describes(rows, PoliticianById(rows, id).value)
  {
    var ps := PoliticiansOfRows(rows);
    if exists k :: 0 <= k < |rows| && rows[k].id == id {
      var k :| 0 <= k < |rows| && rows[k].id == id;
      assert FindIndex(ps, rows[k].id).Some?;
    }
    if PoliticianById(rows, id).Some? {
      var i := FindIndex(ps, id).value;
      assert Describes(rows, ps[i]);
    }
  }

  // ---------------------------------------------------------------------------
  // Placeholder images
  // ---------------------------------------------------------------------------

  datatype ImageRow = ImageRow(id: string, description: Option<string>, imageUrl: string, imageHint: Option<string>)

  datatype ImagePlaceholder = ImagePlaceholder(id: string, description: string, imageUrl: string, imageHint: string)

  /** The row-to-placeholder mapping: id and URL copied, a null description or hint becoming "". */
  function ImageOfRow(row: ImageRow): (r: ImagePlaceholder)
    ensures r.id == row.id && r.imageUrl == row.imageUrl
    ensures row.description.None? ==> r.description == ""
    ensures row.description.Some? ==> r.description == row.description.value
    ensures row.imageHint.None? ==> r.imageHint == ""
    ensures row.imageHint.Some? ==> r.imageHint == row.imageHint.value
  {
    ImagePlaceholder(row.id, row.description.GetOr(""), row.imageUrl, row.imageHint.GetOr(""))
  }

  function ImagesOfRows(rows: seq<ImageRow>): (r: seq<ImagePlaceholder>)
    ensures |r| == |rows|
    ensures forall i :: 0 <= i < |rows| ==> r[i] == ImageOfRow(rows[i])
  {
    seq(|rows|, i requires 0 <= i < |rows| => ImageOfRow(rows[i]))
  }

  /** The image mapping loses nothing but the distinction between a null and an empty text. */
  lemma ImageOfRowInjective(a: ImageRow, b: ImageRow)
    requires ImageOfRow(a) == ImageOfRow(b)
    ensures a.id == b.id && a.imageUrl == b.imageUrl
    ensures a.description.GetOr("") == b.description.GetOr("")
    ensures a.description.Some? && b.description.Some? ==> a.description == b.description
  {
  }
}
