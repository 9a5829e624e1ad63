/**
 * The shared data model of the quiz: the eight policy categories, questions,
 * politicians, per-politician results and per-office result groups.
 *
 * Scores are exact reals standing in for JavaScript doubles. A `PolicyScores`
 * value is a map from category to score; the operations that produce one make
 * it total over the eight categories.
 */
module Types {

  datatype Option<T> = None | Some(value: T) {
    /** The wrapped value, or `default` when there is none (JavaScript's `?? default`). */
    function GetOr(default: T): T {
      match this
      case Some(v) => v
      case None => default
    }
  }

  /** The closed set of policy categories. */
  datatype PolicyCategory =
    | Education
    | Healthcare
    | Economy
    | Environment
    | Infrastructure
    | CriminalJustice
    | SocialIssues
    | Immigration

  /** The categories in the order in which every loop of the program visits them. */
  const PolicyCategories: seq<PolicyCategory> :=
    [Education, Healthcare, Economy, Environment, Infrastructure, CriminalJustice, SocialIssues, Immigration]

  /** The display label of a category, which is also its key in score records. */
  function CategoryName(c: PolicyCategory): string {
    match c
    case Education => "Education"
    case Healthcare => "Healthcare"
    case Economy => "Economy"
    case Environment => "Environment"
    case Infrastructure => "Infrastructure"
    case CriminalJustice => "Criminal Justice"
    case SocialIssues => "Social Issues"
    case Immigration => "Immigration"
  }

  /** There are exactly eight categories, every category is listed, none twice, and no two share a label. */
  lemma CategoriesAreCanonical()
    ensures |PolicyCategories| == 8
    ensures forall c: PolicyCategory :: c in PolicyCategories
    ensures forall i, j :: 0 <= i < j < |PolicyCategories| ==> PolicyCategories[i] != PolicyCategories[j]
    ensures forall c, d: PolicyCategory :: CategoryName(c) == CategoryName(d) ==> c == d
  {
    forall c: PolicyCategory
      ensures c in PolicyCategories
    {
      match c
      case Education => assert PolicyCategories[0] == c;
      case Healthcare => assert PolicyCategories[1] == c;
      case Economy => assert PolicyCategories[2] == c;
      case Environment => assert PolicyCategories[3] == c;
      case Infrastructure => assert PolicyCategories[4] == c;
      case CriminalJustice => assert PolicyCategories[5] == c;
      case SocialIssues => assert PolicyCategories[6] == c;
      case Immigration => assert PolicyCategories[7] == c;
    }
  }

  type PolicyScores = map<PolicyCategory, real>

  /** A score record with an entry for every one of the eight categories. */
  predicate TotalScores<V>(scores: map<PolicyCategory, V>) {
    forall c: PolicyCategory :: c in scores
  }

  datatype Question = Question(id: int, text: string, category: PolicyCategory, isInverted: bool)

  datatype Politician = Politician(
    id: int,
    name: string,
    office: string,
    avatarUrl: string,
    realPhotoUrl: string,
    scores: PolicyScores,
    longDescription: string,
    website: string)

  datatype PoliticianResult = PoliticianResult(politician: Politician, matchPercentage: int, rpgDescription: string)

  datatype OfficeResult = OfficeResult(office: string, results: seq<PoliticianResult>)
}
