/**
 * `getUserScoresFromURL` (src/lib/utils.ts): validates the `answers` query
 * parameter and derives the user's policy scores from it.
 *
 * `decodeURIComponent` followed by `JSON.parse` is a parameter of the model,
 * a function from the raw parameter to the decoded value. A JSON array is an
 * object keyed by its indices, which is how property lookup sees it.
 */
module AnswersParam {
  import opened Types
  import opened Scoring

  /** An own property name of the decoded object: the decimal spelling of an integer, or anything else. */
  datatype Key = IdKey(id: int) | OtherKey(name: string)

  /** What decoding the parameter can yield. */
  datatype JsonValue =
    | Unparseable                          // decodeURIComponent or JSON.parse threw
    | Null
    | Primitive                            // a number, string or boolean
    | Object(fields: map<Key, AnswerVal>)  // an object or array, with its own enumerable properties

  /** The two-field record the function returns; exactly one field is set. */
  datatype UrlScores = UrlScores(userScores: Option<PolicyScores>, error: Option<string>)

  const NoAnswersMessage := "No answers provided. Please take the quiz first."
  const ParseErrorMessage := "Could not parse your answers. Please try the quiz again."
  const NaNErrorMessage := "There was an error calculating your scores. Please try the quiz again."

  /** `answers[q.id]` reads the property named by the id's decimal spelling. */
  function AnswersOf(fields: map<Key, AnswerVal>): (a: Answers)
    ensures forall id :: id in a <==> IdKey(id) in fields
    ensures forall id :: id in a ==> a[id] == fields[IdKey(id)]
  {
    map k | k in fields && k.IdKey? :: k.id := fields[k]
  }

  /** `Object.values(userScores).some(score => isNaN(score))`. */
  predicate SomeNaN(scores: map<PolicyCategory, Score>) {
    exists c :: c in scores && scores[c].NaN?
  }

  /** The numbers of a NaN-free score record. */
  function Values(scores: map<PolicyCategory, Score>): (r: PolicyScores)
    requires !SomeNaN(scores)
    ensures r.Keys == scores.Keys
    ensures forall c :: c in r ==> scores[c] == Finite(r[c])
  {
    map c | c in scores :: scores[c].value
  }

  /** The decoded value is a non-empty object. */
  predicate Parses(param: string, decode: string -> JsonValue) {
    decode(param).Object? && |decode(param).fields| > 0
  }

  /** Some question the answers object answers carries a value that is not a number. */
  predicate HasNonNumericAnswer(questions: seq<Question>, fields: map<Key, AnswerVal>) {
    exists q :: q in questions && IdKey(q.id) in fields && fields[IdKey(q.id)].NotNumber?
  }

  /**
   * Exactly one field is set. A missing or empty parameter is reported as "no
   * answers"; a non-empty one that does not decode to an object with at least
   * one key is reported as unparseable.
   */
  function GetUserScoresFromUrl(param: Option<string>, decode: string -> JsonValue, questions: seq<Question>): (r: UrlScores)
    ensures r.userScores.Some? != r.error.Some?
    ensures r.error == Some(NoAnswersMessage) <==> param.None? || param.value == ""
    ensures param.Some? && param.value != "" ==> (r.error == Some(ParseErrorMessage) <==> !Parses(param.value, decode))
  {
    if param.None? || param.value == "" then UrlScores(None, Some(NoAnswersMessage))
    else
      match decode(param.value)
      case Object(fields) =>
        if |fields| == 0 then UrlScores(None, Some(ParseErrorMessage))
        else
          var scores := UserPolicyScores(questions, AnswersOf(fields));
          if SomeNaN(scores) then UrlScores(None, Some(NaNErrorMessage))
          else UrlScores(Some(Values(scores)), None)
      case _ => UrlScores(None, Some(ParseErrorMessage))
  }

  // ---------------------------------------------------------------------------
  // Lemmas
  // ---------------------------------------------------------------------------

  lemma NaNScoresIffNonNumeric(questions: seq<Question>, fields: map<Key, AnswerVal>)
    ensures SomeNaN(UserPolicyScores(questions, AnswersOf(fields))) <==> HasNonNumericAnswer(questions, fields)
  {
    var a := AnswersOf(fields);
    var scores := UserPolicyScores(questions, a);
    if SomeNaN(scores) {
      var c :| c in scores && scores[c].NaN?;
      CategoryScoreNaN(questions, a, c);
      var q :| q in questions && q.category == c && q.id in a && !a[q.id].Num?;
      assert IdKey(q.id) in fields;
    }
    if HasNonNumericAnswer(questions, fields) {
      var q :| q in questions && IdKey(q.id) in fields && fields[IdKey(q.id)].NotNumber?;
      CategoryScoreNaN(questions, a, q.category);
      assert q.category in scores;
    }
  }

  /** A parsed object whose answers give some category a NaN score is reported as a calculation error. */
  lemma NaNErrorCase(param: string, decode: string -> JsonValue, questions: seq<Question>)
    requires param != "" && Parses(param, decode)
    ensures GetUserScoresFromUrl(Some(param), decode, questions).error == Some(NaNErrorMessage)
        <==> HasNonNumericAnswer(questions, decode(param).fields)
  {
    NaNScoresIffNonNumeric(questions, decode(param).fields);
  }

  /**
   * Otherwise the result is the scores of `calculateUserPolicyScores` on the
   * decoded answers: one number per category, each in 0..100 when every
   * answer is an agreement level 1..5.
   */
  lemma SuccessCase(param: string, decode: string -> JsonValue, questions: seq<Question>)
    requires param != "" && Parses(param, decode)
    requires !HasNonNumericAnswer(questions, decode(param).fields)
    ensures var r := GetUserScoresFromUrl(Some(param), decode, questions);
      && r.userScores.Some?
      && TotalScores(r.userScores.value)
      && forall c :: Finite(r.userScores.value[c]) == UserPolicyScores(questions, AnswersOf(decode(param).fields))[c]
    ensures var r := GetUserScoresFromUrl(Some(param), decode, questions);
      AnswersInRange(AnswersOf(decode(param).fields)) ==>
        forall c :: 0.0 <= r.userScores.value[c] <= 100.0
  {
    var a := AnswersOf(decode(param).fields);
    NaNScoresIffNonNumeric(questions, decode(param).fields);
    if AnswersInRange(a) {
      forall c: PolicyCategory
        ensures 0.0 <= UserPolicyScores(questions, a)[c].value <= 100.0
      {
        ScoresInRange(questions, a, c);
      }
    }
  }
}
