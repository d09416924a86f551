/**
 * The scoring and recommendation engine `calculateRiskScore`: answers are
 * grouped by the area owning their question, each answered area gets a
 * percentage score, the overall score is their mean, and six fixed
 * threshold rules emit recommendations.
 */
module RiskAnalysis {
  import opened Options
  import opened Catalog

  /** One recorded answer: question id, chosen option value, copied risk weight. */
  datatype UserAnswer = UserAnswer(questionId: string, answer: string, riskScore: int)

  datatype Priority = High | Medium | Low

  /** A recommendation; its title, description and action steps are fixed display text per id. */
  datatype Recommendation = Recommendation(id: string, priority: Priority)

  datatype AreaScore = AreaScore(areaId: string, score: real)

  /** A JavaScript number as the mean can produce it: a value, or NaN from 0 / 0. */
  datatype Number = Finite(value: real) | NaN

  datatype RiskProfile = RiskProfile(overallScore: Number, areaScores: seq<AreaScore>,
                                     recommendations: seq<Recommendation>)

  /**
   * The `Record<string, UserAnswer[]>` filled during grouping: its entries,
   * and its keys in insertion order (the order `Object.entries` yields them).
   */
  datatype Buckets = Buckets(keys: seq<string>, entries: map<string, seq<UserAnswer>>)

  const NoBuckets: Buckets := Buckets([], map[])

  predicate Distinct(xs: seq<string>) {
    forall i, j :: 0 <= i < j < |xs| ==> xs[i] != xs[j]
  }

  /** The keys list each entry exactly once. */
  ghost predicate WellFormed(b: Buckets) {
    Distinct(b.keys) && forall k :: k in b.entries <==> k in b.keys
  }

  /** Every key is the id of a catalog area. */
  predicate KeysAreAreas(b: Buckets) {
    forall k :: k in b.keys ==> IsAreaId(k)
  }

  /** `answersByArea[areaId].push(answer)`, creating the bucket first when it is missing. */
  function Push(b: Buckets, areaId: string, a: UserAnswer): (r: Buckets)
    ensures areaId in r.entries && r.entries[areaId] == BucketOf(b, areaId) + [a]
    ensures forall k :: k != areaId ==> (k in r.entries <==> k in b.entries) && BucketOf(r, k) == BucketOf(b, k)
  {
    if areaId in b.entries then Buckets(b.keys, b.entries[areaId := b.entries[areaId] + [a]])
    else Buckets(b.keys + [areaId], b.entries[areaId := [a]])
  }

  /** The two statements of the source (create the bucket if missing, then append) are `Push`. */
  lemma PushAsWritten(b: Buckets, areaId: string, a: UserAnswer)
    ensures var created := if areaId !in b.entries then Buckets(b.keys + [areaId], b.entries[areaId := []]) else b;
            created.(entries := created.entries[areaId := created.entries[areaId] + [a]]) == Push(b, areaId, a)
  {
    if areaId !in b.entries {
      var created := Buckets(b.keys + [areaId], b.entries[areaId := []]);
      assert created.entries[areaId] + [a] == [a];
      assert created.entries[areaId := [a]] == b.entries[areaId := [a]];
    }
  }

  /**
   * One step of the grouping: the answer goes to the bucket of the area that
   * `owner` gives for its question, or nowhere. The source's `owner` is the
   * catalog scan `Owner`; the grouping lemmas hold for any.
   */
  function PlaceBy(owner: string -> Option<string>, b: Buckets, a: UserAnswer): Buckets {
    match owner(a.questionId)
    case None => b
    case Some(areaId) => Push(b, areaId, a)
  }

  /** The buckets after every answer has been placed in turn; no bucket is left without an answer. */
  function GroupBy(owner: string -> Option<string>, answers: seq<UserAnswer>): (r: Buckets)
    ensures forall k :: k in r.entries ==> r.entries[k] != []
  {
    if answers == [] then NoBuckets
    else PlaceBy(owner, GroupBy(owner, answers[..|answers| - 1]), answers[|answers| - 1])
  }

  /** `answersByArea` after `answers.forEach(...)`. */
  function Group(answers: seq<UserAnswer>): Buckets {
    GroupBy(Owner, answers)
  }

  /** Placing an answer keeps the keys distinct, in step with the entries, and catalog area ids. */
  lemma PlaceKeepsShape(b: Buckets, a: UserAnswer)
    requires WellFormed(b) && KeysAreAreas(b)
    ensures WellFormed(PlaceBy(Owner, b, a)) && KeysAreAreas(PlaceBy(Owner, b, a))
  {
    if Owner(a.questionId).Some? {
      var areaId := Owner(a.questionId).value;
      if areaId !in b.entries {
        var keys := b.keys + [areaId];
        assert forall i :: 0 <= i < |b.keys| ==> keys[i] == b.keys[i];
      }
    }
  }

  /** The grouping yields distinct keys, in step with the entries, that name catalog areas. */
  lemma {:induction false} GroupShape(answers: seq<UserAnswer>)
    ensures WellFormed(Group(answers)) && KeysAreAreas(Group(answers))
    decreases |answers|
  {
    if answers != [] {
      GroupShape(answers[..|answers| - 1]);
      PlaceKeepsShape(Group(answers[..|answers| - 1]), answers[|answers| - 1]);
    }
  }

  /** Grouping one more answer places it on the buckets of the shorter prefix. */
  lemma GroupStep(answers: seq<UserAnswer>, i: nat)
    requires i < |answers|
    ensures Group(answers[..i + 1]) == PlaceBy(Owner, Group(answers[..i]), answers[i])
  {
    assert answers[..i + 1][..i] == answers[..i];
  }

  /** The grouping loop of `calculateRiskScore`: `forEach` over the answers, a scan of the areas that stops at the first owner. */
  method GroupAnswers(answers: seq<UserAnswer>) returns (answersByArea: Buckets)
    ensures answersByArea == Group(answers)
  {
    answersByArea := NoBuckets;
    var i := 0;
    while i < |answers|
      invariant 0 <= i <= |answers|
      invariant answersByArea == Group(answers[..i])
    {
      var answer := answers[i];
      ghost var before := answersByArea;
      var j := 0;
      while j < |RiskAreas|
        invariant 0 <= j <= |RiskAreas|
        invariant answersByArea == before
        invariant forall k :: 0 <= k < j ==> !HasQuestion(RiskAreas[k], answer.questionId)
      {
        var area := RiskAreas[j];
        var question := FindQuestion(area.questions, answer.questionId);
        if question.Some? {
          if area.id !in answersByArea.entries {
            answersByArea := Buckets(answersByArea.keys + [area.id], answersByArea.entries[area.id := []]);
          }
          answersByArea := answersByArea.(entries := answersByArea.entries[area.id := answersByArea.entries[area.id] + [answer]]);
          PushAsWritten(before, area.id, answer);
          OwnerFirst(answer.questionId, j);
          assert answersByArea == PlaceBy(Owner, before, answer);
          break;
        }
        j := j + 1;
      }
      if j == |RiskAreas| {
        assert Owner(answer.questionId).None?;
      }
      assert answersByArea == PlaceBy(Owner, before, answer);
      GroupStep(answers, i);
      i := i + 1;
    }
    assert answers[..|answers|] == answers;
  }

  /** Each catalog area has questions, so its possible total is positive. */
  lemma AreaHasQuestions(areaId: string)
    requires IsAreaId(areaId)
    ensures QuestionCount(areaId) == 2
  {
    CatalogFacts();
  }

  /** `areaAnswers.reduce((sum, answer) => sum + answer.riskScore, 0)`. */
  function Total(xs: seq<UserAnswer>): int {
    if xs == [] then 0 else Total(xs[..|xs| - 1]) + xs[|xs| - 1].riskScore
  }

  /** `(totalActualScore / totalPossibleScore) * 100` with `totalPossibleScore = questions.length * 10`. */
  function Percentage(total: int, questionCount: nat): (r: real)
    requires questionCount > 0
    ensures r * (questionCount * MaxRisk) as real == 100.0 * total as real
  {
    (total as real / (questionCount * MaxRisk) as real) * 100.0
  }

  /** The score of one answered area; the denominator is the area's full question count. */
  function ScoreArea(areaId: string, bucket: seq<UserAnswer>): (r: AreaScore)
    requires IsAreaId(areaId)
    ensures r.areaId == areaId
    ensures r.score * (QuestionCount(areaId) * MaxRisk) as real == 100.0 * Total(bucket) as real
  {
    AreaHasQuestions(areaId);
    AreaScore(areaId, Percentage(Total(bucket), QuestionCount(areaId)))
  }

  /** `Object.entries(answersByArea).map(...)`: one score per key, in key order. */
  function ScoresOf(keys: seq<string>, entries: map<string, seq<UserAnswer>>): (r: seq<AreaScore>)
    requires forall k :: k in keys ==> k in entries && IsAreaId(k)
    ensures |r| == |keys|
    ensures forall i :: 0 <= i < |keys| ==> r[i] == ScoreArea(keys[i], entries[keys[i]])
  {
    if keys == [] then []
    else
      var rest := ScoresOf(keys[1..], entries);
      assert forall i :: 0 < i < |keys| ==> keys[i] == keys[1..][i - 1];
      [ScoreArea(keys[0], entries[keys[0]])] + rest
  }

  /** One score per key, naming that key's area, in key order. */
  function AreaScores(b: Buckets): (r: seq<AreaScore>)
    requires WellFormed(b) && KeysAreAreas(b)
    ensures |r| == |b.keys|
    ensures forall i :: 0 <= i < |r| ==> r[i].areaId == b.keys[i]
  {
    ScoresOf(b.keys, b.entries)
  }

  /** `areaScores.reduce((sum, area) => sum + area.score, 0)`. */
  function SumScores(s: seq<AreaScore>): real {
    if s == [] then 0.0 else SumScores(s[..|s| - 1]) + s[|s| - 1].score
  }

  /**
   * The mean of the scores: a number whose product with the count is the sum,
   * or NaN for no scores, as JavaScript's 0 / 0 gives.
   */
  function Mean(s: seq<AreaScore>): (r: Number)
    ensures r.NaN? <==> s == []
    ensures r.Finite? ==> r.value * |s| as real == SumScores(s)
  {
    if |s| == 0 then NaN else Finite(SumScores(s) / |s| as real)
  }

  /** `bucket.find(a => a.questionId === id)`: the first answer to that question. */
  function FindAnswer(xs: seq<UserAnswer>, id: string): (r: Option<UserAnswer>)
    ensures r.Some? ==> r.value in xs && r.value.questionId == id
    ensures r.None? <==> forall i :: 0 <= i < |xs| ==> xs[i].questionId != id
  {
    if xs == [] then None
    else if xs[0].questionId == id then Some(xs[0])
    else FindAnswer(xs[1..], id)
  }

  /** The first answer to the question is the one found. */
  lemma {:induction false} FindAnswerFirst(xs: seq<UserAnswer>, id: string, i: nat)
    requires i < |xs| && xs[i].questionId == id
    requires forall j :: 0 <= j < i ==> xs[j].questionId != id
    ensures FindAnswer(xs, id) == Some(xs[i])
    decreases i
  {
    if i > 0 {
      forall j | 0 <= j < i - 1
        ensures xs[1..][j].questionId != id
      {
        assert xs[1..][j] == xs[j + 1];
      }
      FindAnswerFirst(xs[1..], id, i - 1);
    }
  }

  /** `answersByArea[areaId] || []`. */
  function BucketOf(b: Buckets, areaId: string): seq<UserAnswer> {
    if areaId in b.entries then b.entries[areaId] else []
  }

  /**
   * One recommendation rule: it fires when the answer to `questionId`, looked
   * up in the bucket of `areaId`, has a risk score above `fireAbove`; its
   * priority is High above `highAbove` and `otherwise` below.
   */
  datatype Rule = Rule(id: string, areaId: string, questionId: string,
                       fireAbove: int, highAbove: int, otherwise: Priority)

  /** The rules in the order `calculateRiskScore` pushes their recommendations. */
  const Rules: seq<Rule> := [
    Rule("rec-pwd-manager", "passwords", "pwd-1", 3, 7, Medium),
    Rule("rec-2fa", "passwords", "pwd-2", 2, 7, Medium),
    Rule("rec-updates", "devices", "dev-1", 4, 7, Medium),
    Rule("rec-antivirus", "devices", "dev-2", 5, 8, Medium),
    Rule("rec-permissions", "privacy", "priv-1", 4, 8, Medium),
    Rule("rec-phishing", "privacy", "priv-2", 3, 7, Low)
  ]

  /** What a rule makes of the answer it reads: nothing, or its one recommendation. */
  function Outcome(rule: Rule, found: Option<UserAnswer>): seq<Recommendation> {
    match found
    case None => []
    case Some(a) =>
      if a.riskScore > rule.fireAbove
      then [Recommendation(rule.id, if a.riskScore > rule.highAbove then High else rule.otherwise)]
      else []
  }

  /** A rule applied to the buckets: it reads the first answer to its question in its area's bucket. */
  function Apply(rule: Rule, b: Buckets): seq<Recommendation> {
    Outcome(rule, FindAnswer(BucketOf(b, rule.areaId), rule.questionId))
  }

  /** The first `k` rules of the table applied in turn, their recommendations appended in rule order. */
  function FireFirst(k: nat, b: Buckets): (r: seq<Recommendation>)
    requires k <= |Rules|
    ensures |r| <= k
    ensures b.entries == map[] ==> r == []
  {
    if k == 0 then [] else FireFirst(k - 1, b) + Apply(Rules[k - 1], b)
  }

  /** Every rule of the table in turn: at most one recommendation each, and none without answers. */
  function RecommendationsFor(b: Buckets): (r: seq<Recommendation>)
    ensures |r| <= |Rules|
    ensures b.entries == map[] ==> r == []
  {
    FireFirst(|Rules|, b)
  }

  /** The "Password recommendations" block: rules `rec-pwd-manager` and `rec-2fa`. */
  method PasswordRecommendations(answersByArea: Buckets, before: seq<Recommendation>)
    returns (recommendations: seq<Recommendation>)
    ensures recommendations == before + Apply(Rules[0], answersByArea) + Apply(Rules[1], answersByArea)
  {
    recommendations := before;
    var passwordAnswers := BucketOf(answersByArea, "passwords");
    if |passwordAnswers| > 0 {
      var pwdManagement := FindAnswer(passwordAnswers, "pwd-1");
      var twoFactorAuth := FindAnswer(passwordAnswers, "pwd-2");
      if pwdManagement.Some? && pwdManagement.value.riskScore > 3 {
        recommendations := recommendations +
          [Recommendation("rec-pwd-manager", if pwdManagement.value.riskScore > 7 then High else Medium)];
      }
      assert recommendations == before + Apply(Rules[0], answersByArea);
      if twoFactorAuth.Some? && twoFactorAuth.value.riskScore > 2 {
        recommendations := recommendations +
          [Recommendation("rec-2fa", if twoFactorAuth.value.riskScore > 7 then High else Medium)];
      }
    }
  }

  /** The "Device security recommendations" block: rules `rec-updates` and `rec-antivirus`. */
  method DeviceRecommendations(answersByArea: Buckets, before: seq<Recommendation>)
    returns (recommendations: seq<Recommendation>)
    ensures recommendations == before + Apply(Rules[2], answersByArea) + Apply(Rules[3], answersByArea)
  {
    recommendations := before;
    var deviceAnswers := BucketOf(answersByArea, "devices");
    if |deviceAnswers| > 0 {
      var updates := FindAnswer(deviceAnswers, "dev-1");
      var antivirus := FindAnswer(deviceAnswers, "dev-2");
      if updates.Some? && updates.value.riskScore > 4 {
        recommendations := recommendations +
          [Recommendation("rec-updates", if updates.value.riskScore > 7 then High else Medium)];
      }
      assert recommendations == before + Apply(Rules[2], answersByArea);
      if antivirus.Some? && antivirus.value.riskScore > 5 {
        recommendations := recommendations +
          [Recommendation("rec-antivirus", if antivirus.value.riskScore > 8 then High else Medium)];
      }
    }
  }

  /** The "Privacy recommendations" block: rules `rec-permissions` and `rec-phishing`. */
  method PrivacyRecommendations(answersByArea: Buckets, before: seq<Recommendation>)
    returns (recommendations: seq<Recommendation>)
    ensures recommendations == before + Apply(Rules[4], answersByArea) + Apply(Rules[5], answersByArea)
  {
    recommendations := before;
    var privacyAnswers := BucketOf(answersByArea, "privacy");
    if |privacyAnswers| > 0 {
      var appPermissions := FindAnswer(privacyAnswers, "priv-1");
      var siteVerification := FindAnswer(privacyAnswers, "priv-2");
      if appPermissions.Some? && appPermissions.value.riskScore > 4 {
        recommendations := recommendations +
          [Recommendation("rec-permissions", if appPermissions.value.riskScore > 8 then High else Medium)];
      }
      assert recommendations == before + Apply(Rules[4], answersByArea);
      if siteVerification.Some? && siteVerification.value.riskScore > 3 {
        recommendations := recommendations +
          [Recommendation("rec-phishing", if siteVerification.value.riskScore > 7 then High else Low)];
      }
    }
  }

  /** The recommendation pushes of `calculateRiskScore`, area block by area block. */
  method GenerateRecommendations(answersByArea: Buckets) returns (recommendations: seq<Recommendation>)
    ensures recommendations == RecommendationsFor(answersByArea)
  {
    ghost var b := answersByArea;
    recommendations := PasswordRecommendations(answersByArea, []);
    assert FireFirst(1, b) == [] + Apply(Rules[0], b);
    assert recommendations == FireFirst(2, b);
    recommendations := DeviceRecommendations(answersByArea, recommendations);
    assert recommendations == FireFirst(3, b) + Apply(Rules[3], b);
    recommendations := PrivacyRecommendations(answersByArea, recommendations);
    assert recommendations == FireFirst(5, b) + Apply(Rules[5], b);
  }

  /** The profile `calculateRiskScore` returns for these answers. */
  function RiskProfileOf(answers: seq<UserAnswer>): (r: RiskProfile)
    ensures answers == [] ==> r == RiskProfile(Finite(0.0), [], [])
    ensures answers != [] ==> (r.overallScore.NaN? <==> r.areaScores == [])
  {
    if |answers| == 0 then RiskProfile(Finite(0.0), [], [])
    else
      var answersByArea := Group(answers);
      GroupShape(answers);
      var areaScores := AreaScores(answersByArea);
      RiskProfile(Mean(areaScores), areaScores, RecommendationsFor(answersByArea))
  }

  method CalculateRiskScore(answers: seq<UserAnswer>) returns (profile: RiskProfile)
    ensures profile == RiskProfileOf(answers)
    ensures answers == [] ==> profile == RiskProfile(Finite(0.0), [], [])
  {
    if |answers| == 0 {
      return RiskProfile(Finite(0.0), [], []);
    }
    var answersByArea := GroupAnswers(answers);
    GroupShape(answers);
    var areaScores := AreaScores(answersByArea);
    var overallScore := Mean(areaScores);
    var recommendations := GenerateRecommendations(answersByArea);
    profile := RiskProfile(overallScore, areaScores, recommendations);
  }
}
