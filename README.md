# Risk-aware security self-check, modelled in Dafny

The application is a short questionnaire about personal digital security. The
static catalog `riskAreas` holds three areas (passwords, devices, privacy). Each
area has two questions, and each question has four options, each weighted with
a risk score from 0 to 10. The user walks through the questions one at a time.
At the end, `calculateRiskScore` turns the answers into a risk profile. The
profile holds:

- an area score per answered area: the percentage of that area's maximum risk;
- an overall score: the mean of the area scores;
- up to six recommendations, fired by fixed thresholds on single answers.

The project models two pieces:

- **The scoring engine** (`src/utils/riskAnalysis.ts`). Its parts are:
  - the catalog: module `Catalog`;
  - the grouping of answers into per-area buckets: the method
    `RiskAnalysis.GroupAnswers` with its nested loop and `break`, specified by
    the function `RiskAnalysis.Group`;
  - the area scores and their mean: pure functions;
  - the six recommendation `push`es: methods, specified by a table of rules,
    `RiskAnalysis.Rules`.

  The properties are proved in these modules:
  - `RiskProperties`: grouping, area scores, bounds and the overall score;
  - `RecommendationProperties`: recommendations;
  - `Scenarios`: three worked answer lists.
- **The questionnaire wizard** (`src/components/RiskAssessment.tsx`). It is the
  class `Assessment.RiskAssessment`. Its fields are the component's three pieces
  of state: `currentAreaIndex`, `currentQuestionIndex` and `userAnswers`. Its
  methods are the handlers `handleAnswer`, `goToNext` and `goToPrevious`. Its
  functions are the queries `getCurrentAnswer` and `progress`. The cursor moves
  over the area × question grid; the functions `NextCell` and `PreviousCell`
  state each move's branches. The answer list is updated by `Upsert`:
  filter out the old answer to the question, then append the new one.

Modelling choices:

- Scores are exact `real`s. Every sum is an integer, so the divisions are exact
  rationals.
- JavaScript's `0 / 0` is the `NaN` case of the `Number` datatype.
- `Record<string, UserAnswer[]>` is `Buckets`: a map, plus its keys in
  insertion order. That order is the one `Object.entries` yields for these
  non-numeric keys.
- React's `setState` is a field assignment. One exception is kept because it
  changes the result. `handleAnswer` calls `goToNext` in the same render. So
  when the last question is answered, `goToNext` scores the `userAnswers` of
  that render, which is the list from before the answer just given.
  `HandleAnswer` reproduces this by passing the captured list to
  `GoToNextWith`.

`calculateRiskScore` short-circuits only for an empty answer list
(`src/utils/riskAnalysis.ts:134`). A non-empty list whose question ids are all
unknown divides 0 by 0 and yields NaN. `RiskProperties.OverallScoreNaN` states
exactly when that happens.

## Model

| member | source | states |
|---|---|---|
| Catalog.FindQuestion | src/utils/riskAnalysis.ts:148 | the question found is in the list and has the id; none is found exactly when no question has the id |
| Catalog.FindQuestionFirst | src/utils/riskAnalysis.ts:148 | the first question with the id is the one found |
| Catalog.FindOption | src/components/RiskAssessment.tsx:43-45 | the option found is one of the question's options with that value; none is found exactly when no option has it |
| Catalog.FindOptionFirst | src/components/RiskAssessment.tsx:43-45 | the first option with the value is the one found |
| Catalog.FindArea | src/utils/riskAnalysis.ts:161 | the area found is in the catalog and has the id; none is found exactly when no area has it |
| Catalog.FindAreaFirst | src/utils/riskAnalysis.ts:161 | the first area with the id is the one found |
| Catalog.OwnerFrom | src/utils/riskAnalysis.ts:147-156 | the index found, from `from` on, is the first area holding the question: it holds it and no area between `from` and it does; none is found exactly when no area from `from` on holds it |
| Catalog.Owner | src/utils/riskAnalysis.ts:147-156 | a question has no owner exactly when no catalog area holds it; an owner is always a catalog area id |
| Catalog.OwnerFirst | src/utils/riskAnalysis.ts:147-156 | the first area that holds the question, as the `break` stops the scan, is its owner |
| Catalog.CatalogFacts | src/utils/riskAnalysis.ts:45-130 | the catalog has three areas of two questions each |
| Catalog.OptionFacts | src/utils/riskAnalysis.ts:45-130 | in the `riskAreas` catalog (`Catalog.RiskAreas`), every question offers four options with distinct values; the first weighs the maximum 10 and the weights fall strictly from option to option |
| Catalog.QuestionCount | src/utils/riskAnalysis.ts:161-162 | `area.questions.length` of the area `riskAreas.find` returns for the id: the listed area's question count, and 0 for an id no area has |
| Catalog.CountQuestions | src/components/RiskAssessment.tsx:23 | the `reduce` over the areas' question counts is at least each area's count, and is 0 exactly when no area has a question |
| Catalog.TotalQuestions | src/components/RiskAssessment.tsx:23 | `totalQuestions` over the catalog is 6 |
| Catalog.PasswordsOwner | src/utils/riskAnalysis.ts:45-130 | pwd-1 and pwd-2 are owned by passwords |
| Catalog.DevicesOwner | src/utils/riskAnalysis.ts:45-130 | dev-1 and dev-2 are owned by devices, past the password area |
| Catalog.PrivacyOwner | src/utils/riskAnalysis.ts:45-130 | priv-1 and priv-2 are owned by privacy, past the two earlier areas |
| RiskAnalysis.Push | src/utils/riskAnalysis.ts:150-153 | the area's bucket gains the answer at its end; every other bucket, and whether it exists, is unchanged |
| RiskAnalysis.PlaceBy | src/utils/riskAnalysis.ts:145-156 | one answer goes to the bucket of its question's owner, or nowhere when it has none; its properties are the grouping lemmas below |
| RiskAnalysis.Group | src/utils/riskAnalysis.ts:143-157 | the buckets after each answer is placed in turn with the catalog's owner; specifies `GroupAnswers` |
| RiskAnalysis.GroupBy | src/utils/riskAnalysis.ts:143-157 | the buckets after each answer is placed with a given owner; a bucket only ever exists holding an answer. Its contents are stated by `RiskProperties.GroupByEntries` and `RiskProperties.GroupByOrder` |
| RiskAnalysis.GroupStep | src/utils/riskAnalysis.ts:143-157 | grouping one more answer places it on the buckets of the shorter list |
| RiskAnalysis.PushAsWritten | src/utils/riskAnalysis.ts:150-153 | creating the bucket when it is missing and then pushing equals one `Push` |
| RiskAnalysis.PlaceKeepsShape | src/utils/riskAnalysis.ts:149-153 | placing an answer keeps the keys distinct, in step with the map, and catalog area ids |
| RiskAnalysis.GroupShape | src/utils/riskAnalysis.ts:143-157 | the grouped buckets have distinct keys, exactly the keys of the map, and every key is a catalog area id |
| RiskAnalysis.GroupAnswers | src/utils/riskAnalysis.ts:143-157 | the `forEach` / `for ... break` loop computes `Group(answers)` |
| RiskAnalysis.Total | src/utils/riskAnalysis.ts:163 | the sum of the bucket's risk scores; bounded in `RiskProperties.TotalBounds` |
| RiskAnalysis.AreaHasQuestions | src/utils/riskAnalysis.ts:161-162 | every catalog area has two questions, so its possible total is positive |
| RiskAnalysis.Percentage | src/utils/riskAnalysis.ts:162-168 | the percentage times the possible total (10 per question) is 100 × the actual total |
| RiskAnalysis.ScoreArea | src/utils/riskAnalysis.ts:160-169 | the score names its area, and times that area's possible total it is 100 × its bucket's total |
| RiskAnalysis.ScoresOf | src/utils/riskAnalysis.ts:160-170 | one score per key, in key order; entry i is the score of key i's bucket |
| RiskAnalysis.AreaScores | src/utils/riskAnalysis.ts:160-170 | one score per key of the grouping, naming that key's area, in key order; each score's value over the area's answers is `RiskProperties.KeyScores` |
| RiskAnalysis.SumScores | src/utils/riskAnalysis.ts:173 | the sum of the area scores; bounded in `RiskProperties.SumScoresBounds` |
| RiskAnalysis.Mean | src/utils/riskAnalysis.ts:173 | NaN exactly for no scores; otherwise the value times the count is the sum of the scores |
| RiskAnalysis.FindAnswer | src/utils/riskAnalysis.ts:181-182 | the answer found is in the list and answers that question; none is found exactly when no answer does |
| RiskAnalysis.FindAnswerFirst | src/utils/riskAnalysis.ts:181-182 | the first answer to the question is the one found |
| RiskAnalysis.BucketOf | src/utils/riskAnalysis.ts:179 | the area's bucket, or the empty list when the area has none; see `RiskProperties.BucketIsInArea` |
| RiskAnalysis.Outcome | src/utils/riskAnalysis.ts:184-195 | one rule's branch on the answer it read; see `RecommendationProperties.OutcomeFires` |
| RiskAnalysis.Apply | src/utils/riskAnalysis.ts:179-195 | one rule applied to its area's bucket; see `RecommendationProperties.ApplyOnGroup` |
| RiskAnalysis.FireFirst | src/utils/riskAnalysis.ts:176-281 | the first k rules applied in table order give at most k recommendations, and none without buckets; their contents are `RecommendationProperties.FireFirstIsExpected` |
| RiskAnalysis.RecommendationsFor | src/utils/riskAnalysis.ts:176-281 | all six rules applied in table order: at most one recommendation per rule, none when no area has answers; exactly which ones is `RecommendationProperties.RecommendationsFromAnswers` |
| RiskAnalysis.PasswordRecommendations | src/utils/riskAnalysis.ts:179-211 | the password block appends the outcomes of rules `rec-pwd-manager` and `rec-2fa` |
| RiskAnalysis.DeviceRecommendations | src/utils/riskAnalysis.ts:214-246 | the device block appends the outcomes of rules `rec-updates` and `rec-antivirus` |
| RiskAnalysis.PrivacyRecommendations | src/utils/riskAnalysis.ts:249-281 | the privacy block appends the outcomes of rules `rec-permissions` and `rec-phishing` |
| RiskAnalysis.GenerateRecommendations | src/utils/riskAnalysis.ts:176-281 | the three blocks together give the six rules applied in table order |
| RiskAnalysis.RiskProfileOf | src/utils/riskAnalysis.ts:133-287 | an empty list gives overall 0, no area scores and no recommendations; a non-empty list has a NaN overall score exactly when it has no area score; that the overall score is the mean of the area scores is `RiskProperties.OverallIsMean` |
| RiskAnalysis.CalculateRiskScore | src/utils/riskAnalysis.ts:133-287 | the result is the profile of the answers; an empty list gives overall 0, no area scores and no recommendations |
| RiskProperties.InAreaSnoc | src/utils/riskAnalysis.ts:145-157 | one more answer extends area k's answers exactly when its owner is k |
| RiskProperties.FirstIndexFacts | src/utils/riskAnalysis.ts:145-157 | the position of area k's first answer is in range exactly when area k has an answer |
| RiskProperties.FirstIndexSnoc | src/utils/riskAnalysis.ts:145-157 | one more answer moves area k's first position only when k had no answer before |
| RiskProperties.GroupByWellFormed | src/utils/riskAnalysis.ts:143-157 | for any owner function the grouping has distinct keys, exactly those of the map |
| RiskProperties.InAreaMembers | src/utils/riskAnalysis.ts:145-157 | an answer is among area k's answers exactly when it is one of the answers and its question's owner is k |
| RiskProperties.GroupByEntries | src/utils/riskAnalysis.ts:143-157 | for any owner function, a bucket exists exactly for an area owning some answer, and it holds that area's answers in input order |
| RiskProperties.GroupByOrder | src/utils/riskAnalysis.ts:143-157 | for any owner function, bucket keys are in order of each area's first answer |
| RiskProperties.GroupByKeysEmpty | src/utils/riskAnalysis.ts:143-157 | no bucket is created exactly when no answer has an owner |
| RiskProperties.BucketIsInArea | src/utils/riskAnalysis.ts:145-157 | the catalog bucket of area k is the subsequence of answers whose question area k owns |
| RiskProperties.AnswerPlacement | src/utils/riskAnalysis.ts:145-157 | answer n is in bucket k exactly when its question is owned by k; an answer with an unknown id is in no bucket |
| RiskProperties.OwnedQuestions | src/utils/riskAnalysis.ts:45-130 | only pwd-1 and pwd-2 are owned by passwords, only dev-1 and dev-2 by devices, only priv-1 and priv-2 by privacy |
| RiskProperties.KeyScores | src/utils/riskAnalysis.ts:160-170 | area score i scores key i's area over exactly that area's answers |
| RiskProperties.AreaScoresContents | src/utils/riskAnalysis.ts:160-170 | every area score names a catalog area with answers, and equals 100 × its bucket's total / (10 × its question count) |
| RiskProperties.AreaScoresCover | src/utils/riskAnalysis.ts:143-170 | every area with at least one answer has an area score |
| RiskProperties.AreaScoresOrder | src/utils/riskAnalysis.ts:143-170 | area scores have no duplicate area and follow the order of each area's first answer, not catalog order |
| RiskProperties.AreaIds | src/utils/riskAnalysis.ts:45-130 | the catalog's area ids are exactly passwords, devices and privacy |
| RiskProperties.InAreaValid | src/utils/riskAnalysis.ts:145-157 | a bucket of valid answers is valid |
| RiskProperties.DistinctWithin | src/utils/riskAnalysis.ts:145-157 | answers to distinct questions drawn from a set of ids number at most the set's size |
| RiskProperties.BucketSize | src/utils/riskAnalysis.ts:162 | with one answer per question, an area's bucket is no longer than its question count |
| RiskProperties.TotalBounds | src/utils/riskAnalysis.ts:163 | a sum of risk scores in 0..10 lies between 0 and 10 × the count |
| RiskProperties.TotalConstant | src/utils/riskAnalysis.ts:163 | a sum of equal risk scores c is c × the count |
| RiskProperties.ScoreAreaBounds | src/utils/riskAnalysis.ts:160-169 | with scores in 0..10 and no more answers than questions, an area score lies in 0..100 |
| RiskProperties.ScorePerPoint | src/utils/riskAnalysis.ts:162-168 | for a catalog area of two questions, each risk point is worth 5 percent |
| RiskProperties.ScoreAreaExtremes | src/utils/riskAnalysis.ts:160-169 | all-10 answers to every question give 100; all-0 answers give 0; a single 10 answer gives 50, since the denominator is the full question count |
| RiskProperties.AreaScoresBounded | src/utils/riskAnalysis.ts:160-170 | for valid answers every area score lies in 0..100 |
| RiskProperties.SumScoresBounds | src/utils/riskAnalysis.ts:173 | a sum of scores in 0..100 lies in 0..100 × the count |
| RiskProperties.MeanBounds | src/utils/riskAnalysis.ts:173 | the mean of scores in 0..100 lies in 0..100 |
| RiskProperties.OverallIsMean | src/utils/riskAnalysis.ts:172-173 | for a non-empty answer list the overall score is `Mean` of the area scores; with at least one area score it is their sum divided by their count |
| RiskProperties.OverallScoreNaN | src/utils/riskAnalysis.ts:133-173 | a non-empty answer list gives NaN exactly when no answer's question is in the catalog |
| RiskProperties.OverallScoreBounded | src/utils/riskAnalysis.ts:45-173 | for valid answers a numeric overall score lies in 0..100 |
| RecommendationProperties.RuleIndexFrom | src/utils/riskAnalysis.ts:176-281 | the index found is in range, and a found index holds a rule with that id |
| RecommendationProperties.RuleThresholds | src/utils/riskAnalysis.ts:184-281 | every rule of the table fires above a threshold in 0..9 and turns high only above a larger one below 10 |
| RecommendationProperties.RuleIds | src/utils/riskAnalysis.ts:176-281 | the six rule ids are distinct: each rule is found at its own position |
| RecommendationProperties.RuleOwned | src/utils/riskAnalysis.ts:179-182 | each rule's question is owned, in the catalog, by the area whose bucket the rule reads |
| RecommendationProperties.RulesCoverCatalog | src/utils/riskAnalysis.ts:176-281 | the rule table `RiskAnalysis.Rules` has one rule per catalog question, in catalog order: rule j reads question j mod 2 of area j div 2, and only the last rule falls back to Low |
| RecommendationProperties.FindInArea | src/utils/riskAnalysis.ts:181-182 | looking up an area's question in that area's bucket finds the first answer to it in the whole list |
| RecommendationProperties.ApplyOnGroup | src/utils/riskAnalysis.ts:179-195 | each rule applied to its area's bucket reads the first answer to its question in the whole list |
| RecommendationProperties.FireFirstIsExpected | src/utils/riskAnalysis.ts:176-281 | the rules applied to the buckets give the rules applied to the first answers to their questions in the whole list |
| RecommendationProperties.ExpectedOfNone | src/utils/riskAnalysis.ts:176-281 | no answers fire no rule |
| RecommendationProperties.RecommendationsFromAnswers | src/utils/riskAnalysis.ts:176-281 | the profile's recommendations are the rules applied in table order to the first answers to their questions |
| RecommendationProperties.ExpectedOrder | src/utils/riskAnalysis.ts:176-281 | the first k rules yield at most k recommendations, from those rules, in strictly increasing rule order |
| RecommendationProperties.OutcomeShape | src/utils/riskAnalysis.ts:184-195 | a rule yields at most one recommendation, with its own id |
| RecommendationProperties.OrderedAppend | src/utils/riskAnalysis.ts:176-281 | appending rule k's recommendation, if any, to earlier rules' ones in rule order keeps rule order |
| RecommendationProperties.OutcomeFires | src/utils/riskAnalysis.ts:184-195 | a rule that fires yields exactly its recommendation with the priority its upper threshold selects; one that does not yields none |
| RecommendationProperties.NewestFires | src/utils/riskAnalysis.ts:176-281 | the last of the first k rules is present exactly when it fires, with its priority |
| RecommendationProperties.NotYetFired | src/utils/riskAnalysis.ts:176-281 | before a rule is applied, no earlier recommendation carries its id |
| RecommendationProperties.OlderFires | src/utils/riskAnalysis.ts:176-281 | later rules leave an earlier rule's presence and priority as they were |
| RecommendationProperties.ExpectedFiresAt | src/utils/riskAnalysis.ts:176-281 | among the first k rules, rule i is present exactly when it fires, and then with its priority |
| RecommendationProperties.RecommendationRules | src/utils/riskAnalysis.ts:176-281 | at most six recommendations, each from a rule of the table; in rule order, so no id twice; rule i's recommendation is present exactly when the first answer to its question exceeds its threshold, and then with its priority; an unanswered question fires nothing |
| Scenarios.TwoAnswersOneArea | src/utils/riskAnalysis.ts:145-157 | two answers of one area make one bucket holding both, in order |
| Scenarios.PairTotal | src/utils/riskAnalysis.ts:163 | the total of two answers is the sum of their risk scores |
| Scenarios.TwoAnswersProfile | src/utils/riskAnalysis.ts:133-173 | two answers of one catalog area give that one area score, and it is also the overall score |
| Scenarios.MeanOfOne | src/utils/riskAnalysis.ts:173 | the mean of one score is that score |
| Scenarios.PasswordRulesSilent | src/utils/riskAnalysis.ts:179-211 | with no password answer, the password rules add nothing |
| Scenarios.DeviceRulesSilent | src/utils/riskAnalysis.ts:214-246 | with no device answer, the device rules add nothing |
| Scenarios.PrivacyRulesSilent | src/utils/riskAnalysis.ts:249-281 | with no privacy answer, the privacy rules add nothing |
| Scenarios.PasswordsAtMaximum | src/utils/riskAnalysis.ts:133-211 | pwd-1 and pwd-2 at risk 10 give overall 100, passwords 100, and `rec-pwd-manager` and `rec-2fa` at high priority |
| Scenarios.PasswordsAtMaximumRecommendations | src/utils/riskAnalysis.ts:176-281 | the recommendations of that list |
| Scenarios.DevicesAtMid | src/utils/riskAnalysis.ts:133-246 | dev-1 and dev-2 at risk 5 give overall 50, devices 50, and only `rec-updates` at medium (5 is not above 5) |
| Scenarios.DevicesAtMidRecommendations | src/utils/riskAnalysis.ts:176-281 | the recommendations of that list |
| Scenarios.PrivacyAtMid | src/utils/riskAnalysis.ts:133-281 | priv-1 and priv-2 at risk 5 give overall 50, privacy 50, `rec-permissions` at medium and `rec-phishing` at its low default |
| Scenarios.PrivacyAtMidRecommendations | src/utils/riskAnalysis.ts:176-281 | the recommendations of that list |
| Assessment.CountAppend | src/components/RiskAssessment.tsx:23 | the question count of two area lists together is the sum of their counts |
| Assessment.CountPrefix | src/components/RiskAssessment.tsx:23 | the count of the first a+1 areas adds area a's questions and is at most the total |
| Assessment.NextCell | src/components/RiskAssessment.tsx:63-79 | the three branches of `goToNext`: next question, first question of the next area, or completion; see `NextCellFacts` |
| Assessment.PreviousCell | src/components/RiskAssessment.tsx:81-91 | the three branches of `goToPrevious`: previous question, last question of the previous area, or stay; see `PreviousCellFacts` |
| Assessment.PositionBound | src/components/RiskAssessment.tsx:20-21 | every cell of the grid has a position below the question total |
| Assessment.NextCellFacts | src/components/RiskAssessment.tsx:63-79 | a `goToNext` move stays in the grid and advances the position by one; completion happens exactly at the last position |
| Assessment.PreviousCellFacts | src/components/RiskAssessment.tsx:81-91 | a `goToPrevious` move stays in the grid and goes back one position, except at (0,0), where it stays |
| Assessment.NextPreviousRoundTrip | src/components/RiskAssessment.tsx:63-91 | next then previous returns to the cell, and so does previous then next away from (0,0) |
| Assessment.Without | src/components/RiskAssessment.tsx:57 | the filter keeps exactly the answers to other questions, as members; multiplicity is `WithoutCounts`, order is `WithoutAppendOne` |
| Assessment.WithoutCounts | src/components/RiskAssessment.tsx:57 | the filter keeps each answer to another question as often as it occurs and drops every answer to the question |
| Assessment.Upsert | src/components/RiskAssessment.tsx:57 | the new answer comes last; the result holds exactly the new answer and the old answers to other questions |
| Assessment.WithoutKeepsOne | src/components/RiskAssessment.tsx:57 | the filter keeps "at most one answer per question" |
| Assessment.FindWithout | src/components/RiskAssessment.tsx:57 | after the filter the question has no answer and every other question keeps its first answer |
| Assessment.FindAppendOne | src/components/RiskAssessment.tsx:57 | appending an answer changes a lookup only for a question that had no answer |
| Assessment.UpsertFacts | src/components/RiskAssessment.tsx:50-57 | after the upsert the question's answer is the new one, other questions keep theirs, and one answer per question is kept |
| Assessment.WithoutLength | src/components/RiskAssessment.tsx:57 | with one answer per question, the filter removes one answer if the question was answered and none otherwise |
| Assessment.UpsertLength | src/components/RiskAssessment.tsx:57 | a first answer adds one to the count; a changed answer keeps it |
| Assessment.WithoutTwice | src/components/RiskAssessment.tsx:57 | filtering twice is filtering once |
| Assessment.WithoutAppendOne | src/components/RiskAssessment.tsx:57 | the filter distributes over appending one answer, so it keeps the order of the answers it keeps |
| Assessment.UpsertTwice | src/components/RiskAssessment.tsx:57 | answering the same question twice keeps only the second answer |
| Assessment.CellFacts | src/utils/riskAnalysis.ts:45-130 | every catalog question has one of the six ids, and its options have non-empty values and weights in 0..10 |
| Assessment.OfferedFacts | src/components/RiskAssessment.tsx:50-54 | an answer the wizard records names a catalog question, a non-empty option value and a weight in 0..10 |
| Assessment.RecordedFacts | src/components/RiskAssessment.tsx:24-25 | recorded answers are valid scoring input and number at most the question total |
| Assessment.CatalogCells | src/components/RiskAssessment.tsx:19-23 | every area has questions, and the grid has 6 cells |
| Assessment.RiskAssessment.constructor | src/components/RiskAssessment.tsx:15-17 | the wizard starts at (0,0) with no answers, in a valid state |
| Assessment.RiskAssessment.GetCurrentAnswer | src/components/RiskAssessment.tsx:94-96 | "" exactly when the current question is unanswered; otherwise the value recorded for it, which is one of its options |
| Assessment.RiskAssessment.CurrentQuestion | src/components/RiskAssessment.tsx:20-21 | `currentQuestion` is a question of the current area, with one of the six catalog ids |
| Assessment.RiskAssessment.CanGoNext | src/components/RiskAssessment.tsx:154 | "Próxima" is enabled when the current question has an answer; `RecordAnswer` establishes it |
| Assessment.RiskAssessment.CanGoPrevious | src/components/RiskAssessment.tsx:139 | "Anterior" is enabled away from (0,0); `GoToNextWith` establishes it and `GoToPrevious` moves exactly when it holds |
| Assessment.RiskAssessment.Progress | src/components/RiskAssessment.tsx:23-25 | progress × 6 = 100 × the number of answers |
| Assessment.RiskAssessment.GoToNextWith | src/components/RiskAssessment.tsx:63-79 | the cursor moves to the next cell, where "Anterior" is enabled; at the last cell it stays and the assessment completes with the profile of the answer list the caller's render saw; the answers and the invariant are kept |
| Assessment.RiskAssessment.GoToNext | src/components/RiskAssessment.tsx:63-79 | from the "Próxima" button, completion scores the full current answer list |
| Assessment.RiskAssessment.GoToPrevious | src/components/RiskAssessment.tsx:81-91 | the cursor moves to the previous cell, stays at (0,0), and the answers are kept; it moves exactly when "Anterior" is enabled |
| Assessment.RiskAssessment.HandleAnswer | src/components/RiskAssessment.tsx:41-61 | an unknown option changes nothing; otherwise the answer, with the option's weight, is upserted and the cursor advances; at the last cell it completes with the profile of the answers from before this answer |
| Assessment.RiskAssessment.HandleAnswerFixed | src/components/RiskAssessment.tsx:41-61 | the same, except that completion scores the answers including this one |
| Assessment.RiskAssessment.RecordAnswer | src/components/RiskAssessment.tsx:50-57 | the upsert of a chosen option keeps the cursor and the invariant; the current answer is then the chosen value, so "Próxima" is enabled |
| Assessment.AnswerOfCurrent | src/components/RiskAssessment.tsx:94-96 | the answer found for the current question is its only answer, and names one of its options |
| Assessment.CellIds | src/utils/riskAnalysis.ts:45-130 | distinct grid cells hold questions with distinct ids |
| Assessment.ProgressBounds | src/components/RiskAssessment.tsx:23-25 | progress lies in 0..100, and is 100 exactly when every question is answered |
| Assessment.FinalAnswerIgnored | src/components/RiskAssessment.tsx:57-76 | a first answer to priv-2 above 3 makes `rec-phishing` appear in the profile of the updated list, but not in the profile of the list `HandleAnswer` scores |
| Assessment.FinalAnswerCounted | src/components/RiskAssessment.tsx:57-76 | in the profile of the updated list, a rule on the question just answered fires exactly when that answer is above the rule's threshold, with its priority |

## Left out

- Display text is left out: area names and descriptions, question and option
  texts, recommendation titles, descriptions and action steps. Only the ids,
  weights and priorities take part in any computation. For the same reason,
  the `name` field of an area score (`src/utils/riskAnalysis.ts:167`) is not
  modelled.
- The rendering, the area icons and the CSS are not part of this model. The
  buttons' `disabled` conditions are kept as `CanGoNext` and `CanGoPrevious`.
- `onComplete(riskProfile)` is a callback into the parent page. It becomes the
  returned `Some(profile)` of `GoToNextWith`, `GoToNext`, `HandleAnswer` and
  `HandleAnswerFixed`.
- Otherwise React's state scheduling and re-rendering are not modelled. Each
  `setState` is an assignment, apart from the captured answer list described
  above.
- The sort of the recommendations by priority in `src/pages/Index.tsx` is a
  presentation step after scoring. It is not part of this model.
- The rounding for display (`Math.round` in `src/components/RiskScore.tsx`) and
  the score bands there are not part of this model. Scores are exact reals, so
  IEEE rounding is left out.
- `scripts/build-gh-pages.js` (build and file copying) and
  `src/utils/githubPagesRouter.ts` (browser location and history) are I/O
  against the host environment. They are not part of this model.
- The scenario lemmas take answers as `calculateRiskScore` accepts them, as
  any question id, value and score. Two of them use the value "mid", which is
  not an option of the catalog.

## Findings

| source | as written | input that shows it | evidently intended | confidence | as-written member | corrected member |
|---|---|---|---|---|---|---|
| src/components/RiskAssessment.tsx:57,60,76 | `handleAnswer` sets the new answer list and then calls `goToNext`. That reads `userAnswers` from the same render, so completion scores the list without the final answer. | Answer the five earlier questions, then answer the last question `priv-2` with "never" (risk 10) for the first time. The completed profile has no `rec-phishing`. | The completed profile scores every answer given, including the last one. | not executed | Assessment.RiskAssessment.HandleAnswer, Assessment.FinalAnswerIgnored | Assessment.RiskAssessment.HandleAnswerFixed, Assessment.FinalAnswerCounted |
