# Political-quiz scoring and matching, modelled in Dafny

The app asks the user a series of policy questions. Each answer is an agreement level from 1 to 5.

- The answers are turned into a score from 0 to 100 in each of eight policy categories.
- The user's scores are compared with every politician's, which gives a match percentage.
- Politicians are then grouped by office and ranked best match first.

This project models that pipeline and the pure list and string logic around it, as immutable datatypes and pure functions. It then proves what the code promises about them.

| Module | File | Models |
|---|---|---|
| `Types` | `types.dfy` | The eight policy categories and the `Question`, `Politician`, `PoliticianResult` and `OfficeResult` records of `src/lib/types.ts`. |
| `Text` | `text.dfy` | JavaScript string operations used by the app: ASCII case mapping, `\s` whitespace, regex-style run collapsing, `split`/`join`, `indexOf`, `replace` of a first occurrence, `trim`, digit filtering. |
| `Slug` | `slug.dfy` | `slugify` and `unslugify`. |
| `Scoring` | `scoring.dfy` | `calculateUserPolicyScores`. JavaScript's `NaN` is an explicit `Score` case, because an answer that is not a number poisons a category. |
| `Matching` | `matching.dfy` | `calculateMatchPercentage`, including `x \|\| 50`, which reads a score of 0 as 50. |
| `AnswersParam` | `answers_param.dfy` | `getUserScoresFromURL`: three error messages and a success case. |
| `Sorting` | `sorting.dfy` | A stable insertion sort by a comparator, and an order-preserving filter. |
| `Ranking` | `ranking.dfy` | The canonical office order and the grouping and ranking in `Results` (results page). |
| `DbRows` | `db_rows.dfy` | The row mappings of `db-data.ts`: questions, the politician/score row fold, lookup by id, and image rows. |
| `ResultsToc` | `toc.dfy` | The results table of contents: house/other partition, district sort, link targets and labels. |
| `ResultsAll` | `results_all.dfy` | The all-results view: anchor ids, and which results are shown as cards with which rank. |
| `Quiz` | `quiz.dfy` | The quiz client as a state machine over (question index, answers, selection). |

Scores are exact `real` numbers standing in for JavaScript doubles. `Math.round(x)` is `Floor(x + 0.5)`.

Where a step needs something from outside the model, it is a parameter. This covers three cases:

- the decoded answers parameter;
- the encoder that builds the results query;
- the `localeCompare` fallback of the district sort.

The JavaScript sort is stable, so a sorted result is fully determined. `Sorting.StableSortIsSortWith` proves that any sequence which is sorted by the key and keeps ties in input order equals the insertion sort's output. The model's sort therefore stands for the engine's sort whenever the comparator is a consistent order. The district comparator need not be one: when it falls back to `localeCompare`, three offices such as "a 10", "a z" and "b 9" can compare in a cycle, and then the engine's order is not determined.

The quiz and the results page read different question lists. The quiz asks the questions from the database (src/app/quiz/page.tsx:9). `calculateUserPolicyScores` scores against the question list of `src/lib/data.ts` (src/lib/utils.ts:6, :75). The two lists come from different sources and can differ. A data-file question whose id the quiz did not ask is unanswered and scores 50. `Scoring.UserPolicyScores` therefore takes the question list as a parameter, and `Quiz.HandOff` states its bound for any list.

In the match computation, `|| 50` reads every 0 as 50. So scores all 0 against scores all 100 match 50%, not 0% (`Matching.AllZeroAgainstAllHundred`).

## Model

| member | source | states |
|---|---|---|
| Types.CategoriesAreCanonical | src/lib/types.ts:1-10 | There are exactly eight categories, listed once each in a fixed order, and their display names are pairwise distinct. |
| Slug.Slugify | src/lib/utils.ts:17-25 | `slugify` lower-cases, turns whitespace runs into `-`, drops non-word characters, collapses hyphen runs and trims hyphens. Every output is a slug: only `a-z`, `0-9`, `_` and `-`, never two hyphens in a row, and no hyphen at either end. |
| Slug.SlugifyFixesSlugs | src/lib/utils.ts:17-25 | `slugify` leaves every string of that shape unchanged. |
| Slug.SlugifyIdempotent | src/lib/utils.ts:17-25 | Slugifying twice gives the same as slugifying once. |
| Slug.SlugifySenate | src/lib/utils.ts:17-25 | `slugify("U.S. Senate") == "us-senate"`. |
| Slug.DisplayWord | src/lib/utils.ts:37-60 | The `map` callback of `unslugify`, branch for branch, always gives the plain word rule. The upper-case-list branch never fires, because a lower-cased word is never `"U.s."`. The "district followed by a number" branch returns the same word as the default capitalisation. Each word's display therefore depends only on the word and its position. |
| Slug.PlainDisplayWord | src/lib/utils.ts:52-60 | The word `us` (any case) becomes `U.S.`. `of`, `and`, `the` and `in` are lower-cased except at position 0. Every other word has its first letter upper-cased. |
| Slug.Unslugify | src/lib/utils.ts:32-63 | `unslugify` turns each hyphen into a space, splits on spaces, displays each word by its position under the plain rule, and joins the words with single spaces. |
| Slug.UnslugifySenate | src/lib/utils.ts:32-63 | `unslugify("us-senate") == "U.S. Senate"`. |
| Slug.SlugifyUnslugify | src/lib/utils.ts:17-63 | For every slug, including the empty one, `slugify(unslugify(s)) == s`, so a slug survives the round trip through its display form. |
| Text.CollapseRunsJoin | src/lib/utils.ts:20 | Collapsing runs of a class, applied to words joined by a class member, turns each separator into the single replacement character. |
| Text.JoinSplit | src/lib/utils.ts:37-62 | Joining the pieces of a split on one character gives back the original string. |
| Text.SplitJoin | src/lib/utils.ts:37-62 | Splitting a join of separator-free words gives back the words. |
| Scoring.QuestionScore | src/lib/utils.ts:81-87 | An unanswered question scores 50. A question's score is NaN exactly when its answer is not a number. |
| Scoring.UserPolicyScores | src/lib/utils.ts:71-94 | `calculateUserPolicyScores` over a given question list gives a score to each of the eight categories and to nothing else. Its values are stated by the lemmas below. |
| Scoring.QuestionScoreOfAnswer | src/lib/utils.ts:85-86 | Answer `a` contributes `(a-1)*25`. For an inverted question it contributes `100 - (a-1)*25`, the score of the mirrored answer `6-a`. |
| Scoring.SumIsAnsweredTotal | src/lib/utils.ts:81-89 | With numeric answers, the reduce over the category's question scores equals the total where each question adds its answer's policy value and each unanswered question adds 50. |
| Scoring.CategoryScoreIsMean | src/lib/utils.ts:71-94 | Every one of the eight categories gets a value. With numeric answers it is finite: 50 for a category without questions, otherwise a value that, multiplied by the category's question count, gives the total of the answers' policy values plus 50 per unanswered question. |
| Scoring.EmptyCategoryIsNeutral | src/lib/utils.ts:74-78 | A category with no questions scores exactly 50. |
| Scoring.UnansweredCategoryIsNeutral | src/lib/utils.ts:81-90 | A category whose questions are all unanswered scores 50. |
| Scoring.UnansweredIsNeutralAnswer | src/lib/utils.ts:82-86 | Leaving a question unanswered gives the same scores as answering it with the neutral 3. |
| Scoring.InCategoryConcat | src/lib/utils.ts:75 | The category filter of two concatenated question lists is the concatenation of the two filters. |
| Scoring.OtherCategoryQuestionIgnored | src/lib/utils.ts:75 | Inserting a question of another category at any position leaves a category's score unchanged. |
| Scoring.CategoryScoreDependsOnItsQuestions | src/lib/utils.ts:75-90 | A category's score depends only on the answers to that category's questions. |
| Scoring.CategoryScoreNaN | src/lib/utils.ts:81-90 | A category scores NaN exactly when some answered question of that category holds a value that is not a number. |
| Scoring.ScoresInRange | src/lib/utils.ts:71-94 | When every answer is a number in 1..5, every category score is a number in 0..100. |
| Scoring.StrongAgreementExtremes | src/lib/utils.ts:85-89 | A single Education question answered 5 gives Education 100, or 0 when the question is inverted. |
| Matching.MatchScores | src/lib/utils.ts:102-118 | The match is an integer in 0..100. |
| Matching.MatchPercentage | src/lib/utils.ts:102-118 | `calculateMatchPercentage` of a politician is an integer in 0..100, and it is 100 when the politician's scores are the user's own. |
| Matching.Round | src/lib/utils.ts:117 | Rounding lands within one half of its argument, halves rounding up. |
| Matching.RoundUnique | src/lib/utils.ts:117 | That integer is the only one within a half, so the rounding is determined. |
| Matching.MatchSelf | src/lib/utils.ts:102-118 | Identical score records match 100. |
| Matching.MatchSymmetric | src/lib/utils.ts:102-118 | The match is symmetric in its two score records. |
| Matching.ZeroAndAbsentAreNeutral | src/lib/utils.ts:109-110 | On either side, a score of 0 and a missing score both match exactly like a score of 50. |
| Matching.MatchReadsNeutralised | src/lib/utils.ts:108-112 | Records that agree after reading 0 and absent as 50 match every politician alike. |
| Matching.CloserMatchesBetter | src/lib/utils.ts:106-117 | A politician at least as close as another in every category matches at least as well. |
| Matching.UniformDifference | src/lib/utils.ts:114-117 | If every category differs by the same `d <= 100`, the match is `100 - d` rounded. |
| Matching.AllZeroAgainstAllHundred | src/lib/utils.ts:102-118 | Scores all 0 against scores all 100 match 50, because the zeros are read as 50. |
| AnswersParam.AnswersOf | src/lib/utils.ts:133 | The answer for a question id is the decoded object's property named by that id, and no other property is an answer. |
| AnswersParam.GetUserScoresFromUrl | src/lib/utils.ts:126-149 | Exactly one of the two result fields is set. The result is "No answers provided…" exactly when the parameter is missing or empty. A non-empty parameter gives "Could not parse…" exactly when it does not decode to an object with at least one key. |
| AnswersParam.NaNErrorCase | src/lib/utils.ts:142-146 | A parsed object gives "There was an error calculating…" exactly when some question's answer is not a number. |
| AnswersParam.NaNScoresIffNonNumeric | src/lib/utils.ts:142-145 | Some category scores NaN exactly when some question's answer is present but not a number. |
| AnswersParam.SuccessCase | src/lib/utils.ts:142-148 | Otherwise the scores are exactly those of `calculateUserPolicyScores` on the decoded answers, one number per category. With answers in 1..5 every number lies in 0..100. |
| Sorting.SortWith | src/app/results/page.tsx:60 | Sorting permutes its input: the same elements with the same multiplicities. |
| Sorting.SortWithSorted | src/app/results/page.tsx:60 | When the comparator orders by a key, the output is sorted by that key and keeps equal-key elements in input order. |
| Sorting.StableSortIsSortWith | src/app/results/page.tsx:60 | Any sequence that is sorted by the key and keeps ties in input order equals the sort's output, so a stable sort is determined. |
| Sorting.SortSortedIsIdentity | src/app/results/page.tsx:68 | Re-sorting a sequence already sorted by the key changes nothing. |
| Sorting.FilterSortCommute | src/app/results/page.tsx:60-68 | Filtering a sorted sequence gives the same as sorting the filtered one. |
| Sorting.Filter | src/app/results/page.tsx:62 | The filter keeps exactly the elements that satisfy the predicate, and no more than the input. |
| Ranking.ToResults | src/app/results/page.tsx:54-59 | One result per politician, in order, carrying that politician's match and the fixed "disabled" description. |
| Ranking.OfficeOrderDistinct | src/app/results/page.tsx:15-36 | The canonical office order lists 18 offices, each once. |
| Ranking.RankedEntry | src/app/results/page.tsx:62-68 | One office's entry takes its group of the match-sorted results and sorts it again. It holds exactly the office's ranking: that office's results sorted best match first. |
| Ranking.GroupAndRank | src/app/results/page.tsx:53-72 | There is one entry per office of the order, in that order, named after that office. Its results are that office's ranking, and the final filter removes nothing. |
| Ranking.Results | src/app/results/page.tsx:53-72 | The results page has one entry per office of the fixed 18-office list, in list order, each holding that office's ranking. |
| Ranking.OfficeRankingMembers | src/app/results/page.tsx:54-68 | An office's results are exactly its politicians' results, with the same multiplicities. Each carries the politician's match percentage and the "disabled" description. |
| Ranking.OfficeRankingOrder | src/app/results/page.tsx:60-68 | Within an office the match percentage never increases, and equal percentages keep the politicians' input order. |
| Ranking.UnlistedOfficeDropped | src/app/results/page.tsx:62-70 | A politician whose office is not canonical appears in no entry. |
| Ranking.VacantOfficeIsEmpty | src/app/results/page.tsx:68 | An office with no politicians still has its entry, with empty results. |
| Ranking.TotalResultCount | src/app/results/page.tsx:62-68 | With distinct offices, the entries hold as many results as there are politicians in a listed office. |
| Ranking.ResultsCount | src/app/results/page.tsx:64-70 | The results page has 18 entries, which together hold one result per politician in a canonical office. |
| DbRows.QuestionOfRow | src/lib/db-data.ts:37-42 | A question row's id, text and category are copied, and the question is inverted exactly when `is_inverted` is non-zero. |
| DbRows.QuestionsOfRows | src/lib/db-data.ts:37-42 | Questions correspond one-to-one, in order, with their rows. |
| DbRows.ZeroScores | src/lib/db-data.ts:80-83 | A new politician's scores cover all eight categories, each 0. |
| DbRows.AbsorbNew | src/lib/db-data.ts:79-101 | The first row of a new id appends one politician and keeps the fold's invariant. |
| DbRows.AbsorbExisting | src/lib/db-data.ts:100-101 | A later row of a known id overwrites that politician's score for its category and keeps the fold's invariant. |
| DbRows.PoliticiansOfRows | src/lib/db-data.ts:76-104 | The fold yields one politician per distinct row id, in order of first appearance. Name, office, URLs and description come from the first row of the id, and a null website becomes "". Each category holds the last row's score for that category, or 0 if no row has one. |
| DbRows.PoliticianById | src/lib/db-data.ts:108-111 | The lookup returns a folded politician with the requested id, or nothing when no folded politician has it. |
| DbRows.PoliticianByIdSpec | src/lib/db-data.ts:108-111 | The lookup finds a politician exactly when some row has the id, and that politician is the one the rows describe. |
| DbRows.ImageOfRow | src/lib/db-data.ts:129-134 | The id and URL are copied; a null description or hint becomes "", and a present one is copied. |
| DbRows.ImagesOfRows | src/lib/db-data.ts:129-134 | Images correspond one-to-one, in order, with their rows. |
| DbRows.ImageOfRowInjective | src/lib/db-data.ts:129-134 | Two rows with the same image share id and URL, and their descriptions agree up to null versus "". |
| ResultsToc.DistrictNumber | src/components/app/ResultsTOC.tsx:35-37 | An office has a district number exactly when its name holds a digit. |
| ResultsToc.HouseDistricts | src/components/app/ResultsTOC.tsx:32-41 | The house list is a reordering of exactly the entries whose office starts with the House prefix, with multiplicities. Its order is stated by `ResultsToc.HouseDistrictsSorted`. |
| ResultsToc.HouseDistrictsMembers | src/components/app/ResultsTOC.tsx:33 | The house list holds exactly the entries whose office starts with the House prefix. |
| ResultsToc.OtherOffices | src/components/app/ResultsTOC.tsx:43 | The other list holds exactly the entries whose office does not start with the prefix. |
| ResultsToc.OtherOfficesAppend | src/components/app/ResultsTOC.tsx:43 | The other list of a concatenation is the concatenation of the other lists, and a single entry stays exactly when it is not a house office, so the list keeps input order. |
| ResultsToc.OtherOfficesWithoutHouse | src/components/app/ResultsTOC.tsx:43 | Without house offices, the other list is the whole input in input order. |
| ResultsToc.TocPartition | src/components/app/ResultsTOC.tsx:32-43 | The house and other lists together are the input, with nothing lost or duplicated. |
| ResultsToc.HouseDistrictsSorted | src/components/app/ResultsTOC.tsx:34-41 | When every house office holds a digit, the house list is in ascending district-number order, and equal numbers keep input order. |
| ResultsToc.CarriedQuery | src/components/app/ResultsTOC.tsx:47 | The answers query is carried exactly when it is present and non-empty. |
| ResultsToc.Href | src/components/app/ResultsTOC.tsx:46-47 | Reading a link back gives the office's slug and the carried query. The link is `/results/` plus the slug, then `?answers=` plus the query only when carried. |
| ResultsToc.HrefInjective | src/components/app/ResultsTOC.tsx:63-64 | Equal links come from offices with the same slug and the same carried query. |
| ResultsToc.DistrictLabel | src/components/app/ResultsTOC.tsx:56 | The label neither starts nor ends with whitespace. |
| ResultsToc.DistrictLabelOfHouseOffice | src/components/app/ResultsTOC.tsx:56 | For a house office, the label is the rest of the name after the prefix, trimmed. |
| ResultsToc.DistrictLabelRoundTrip | src/components/app/ResultsTOC.tsx:56 | The label of the prefix, a space, and a trimmed district name is that district name. |
| ResultsToc.ResultsToc | src/components/app/ResultsTOC.tsx:79-96 | The links are the other offices in input order, with their names. The accordion exists exactly when there are house offices, and lists them in sorted order with their labels. |
| ResultsToc.AccordionIffHouseDistrict | src/components/app/ResultsTOC.tsx:85 | The accordion appears exactly when some entry is a house office. |
| ResultsAll.AnchorId | src/components/app/ResultsAll.tsx:62 | An anchor id holds no whitespace and no capital letter, and is never longer than the office name. |
| ResultsAll.AnchorIdIdempotent | src/components/app/ResultsAll.tsx:62 | Applying the anchor transform twice gives the same as once. |
| ResultsAll.AnchorIdOfWords | src/components/app/ResultsAll.tsx:62 | An office of words separated by single spaces becomes its lower-cased words joined by hyphens. |
| ResultsAll.ResultsAll | src/components/app/ResultsAll.tsx:61-65 | There is one section per office, in input order, headed by the office name. |
| ResultsAll.OfficeBody | src/components/app/ResultsAll.tsx:66-88 | An office shows the "no official candidates" message exactly when it has no results. Otherwise its first result is shown with rank 1, and the accordion appears exactly when there are at least two results. |
| ResultsAll.OfficeSection | src/components/app/ResultsAll.tsx:61-88 | An office's section has the office name as heading and an anchor id with no whitespace or ASCII capital. It shows the placeholder exactly when the office has no results, and otherwise puts the first result on top with rank 1. |
| ResultsAll.AccordionCards | src/components/app/ResultsAll.tsx:30-36 | The accordion shows the results at positions 1 and 2 that exist, ranked position + 1. |
| ResultsAll.CardsAreTopThree | src/components/app/ResultsAll.tsx:30-84 | An office shows `min(3, n)` cards, and card `i` is result `i` with rank `i + 1`. |
| Quiz.LevelsAreOneToFive | src/app/quiz/QuizClient.tsx:18-24 | The selectable agreement values are exactly 1..5, in order. |
| Quiz.Select | src/app/quiz/QuizClient.tsx:88-97 | Choosing an option selects its value and changes neither the index nor the answers. |
| Quiz.Init | src/app/quiz/QuizClient.tsx:28-41 | The quiz starts at the first question with no answers and no selection. That start state is valid: index in range, answers and selection in 1..5, every earlier question answered. |
| Quiz.Prefill | src/app/quiz/QuizClient.tsx:37-41 | Arriving at a question selects its stored answer, or nothing when there is none; a stored 0 also selects nothing. From answers in 1..5 that cover every earlier question, the result is a valid state. |
| Quiz.Next | src/app/quiz/QuizClient.tsx:47-60 | With no selection, Next changes nothing and navigates nowhere. Otherwise it stores the selection under the current question's id and leaves every other answer as it was. Before the last question it advances by one. On the last question it stays and navigates to `/results?answers=` plus the encoded new answers. It keeps the state valid, so the index stays within the questions, and the question now shown has its stored answer selected. |
| Quiz.Back | src/app/quiz/QuizClient.tsx:62-67 | Back moves one question earlier when not on the first, and never changes the answers. It keeps the state valid. After moving back, the earlier question's stored answer is selected. |
| Quiz.SelectValid | src/app/quiz/QuizClient.tsx:88-97 | Selecting keeps the state valid. |
| Quiz.LastNextAnswersAll | src/app/quiz/QuizClient.tsx:53-58 | When Next navigates to the results, every question has an answer. |
| Quiz.HandOff | src/app/quiz/QuizClient.tsx:57-58 | The answers handed to the results page cover every quiz question and lie in 1..5. So every category score is a number in 0..100, for any list of questions the page scores against. |

## Left out

- The SQL queries, the database pool and its configuration are I/O. The rows they return are the inputs of `DbRows`.
- The question and politician reference data file is not part of this model. Questions and politicians are parameters.
- `decodeURIComponent` with `JSON.parse`, and `encodeURIComponent` with `JSON.stringify`, are library calls. They are function parameters. The decoded value is an abstract datatype: unparseable, null, a primitive, or an object of own properties. An array is an object keyed by its indices.
- `localeCompare` depends on the locale. It is the parameter `fallback` of the district comparator.
- lodash `groupBy` followed by a key lookup is modelled as an order-preserving filter on the office.
- Case mapping is ASCII only; non-ASCII letters pass through `toLowerCase`/`toUpperCase` unchanged. Whitespace is the full JavaScript `\s` set.
- IEEE-754 doubles: scores are exact reals, so rounding error, infinities and `-0` are not modelled.
- Matching.MatchScores: score records hold finite numbers only; a NaN inside a politician's stored scores is not modelled.
- ResultsToc.DistrictNumber: `parseInt` of the digit string is an exact natural number, without the double precision loss past 2^53.
- ResultsToc.HouseDistrictsSorted: sortedness is stated only when every house office holds a digit. Otherwise the order depends on the locale comparison, which is a parameter. That comparison mixed with the numeric one can be cyclic ("a 10" < "a z" < "b 9" < "a 10"), and for such input the engine's sort order is not determined, so no order is promised there.
- Quiz.Init: requires at least one question. The quiz reads the first question's id on its first render, so an empty quiz fails.
- Quiz.Select: its argument is the index of the chosen option. The radio value is always one of the decimal strings "1".."5", so `parseInt` of it is modelled as that option's value.
- The AI description flows are calls to a language model.
- All rendering, animation, scrolling and timers are presentational: cards, policy-stat animation, back-to-top button, intersection observer, layouts and the other pages. So are the static description and emoji lookup tables and the Next.js configuration.
- The progress bar value `(index + 1) / n * 100` in the quiz is presentational.
