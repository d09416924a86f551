/**
 * Worked answer lists and the profiles `calculateRiskScore` gives them.
 *
 * Each worked example names its answers as parameters fixed by its `requires`
 * (`a0 == UserAnswer("pwd-1", ...)`) rather than writing the literal list in
 * the `ensures`: the verifier unfolds a literal list eagerly through every
 * function it meets, while a named answer is unfolded only where the proof asks.
 * The statements are the same, for the one list the `requires` admits.
 */
module Scenarios {
  import opened Options
  import opened Catalog
  import opened RiskAnalysis
  import opened RiskProperties
  import opened RecommendationProperties

  /** Two answers to questions of one area make one bucket holding both, in order. */
  lemma TwoAnswersOneArea(owner: string -> Option<string>, a0: UserAnswer, a1: UserAnswer, k: string)
    requires owner(a0.questionId) == Some(k) && owner(a1.questionId) == Some(k)
    ensures GroupBy(owner, [a0, a1]) == Buckets([k], map[k := [a0, a1]])
  {
    var b1 := Buckets([k], map[k := [a0]]);
    assert [a0][..0] == [];
    assert GroupBy(owner, [a0]) == PlaceBy(owner, GroupBy(owner, []), a0) == b1;
    assert [a0, a1][..1] == [a0];
    assert GroupBy(owner, [a0, a1]) == PlaceBy(owner, b1, a1);
    assert b1.entries[k] + [a1] == [a0, a1];
  }

  lemma PairTotal(a0: UserAnswer, a1: UserAnswer)
    ensures Total([a0, a1]) == a0.riskScore + a1.riskScore
  {
    assert [a0, a1][..1] == [a0];
    assert [a0][..0] == [];
    assert Total([a0]) == a0.riskScore;
  }

  /** Two answers to questions of one catalog area: one area score, which is also the overall score. */
  lemma TwoAnswersProfile(a0: UserAnswer, a1: UserAnswer, k: string)
    requires Owner(a0.questionId) == Some(k) && Owner(a1.questionId) == Some(k)
    ensures RiskProfileOf([a0, a1]).areaScores == [ScoreArea(k, [a0, a1])]
    ensures RiskProfileOf([a0, a1]).overallScore == Finite(ScoreArea(k, [a0, a1]).score)
  {
    TwoAnswersOneArea(Owner, a0, a1, k);
    GroupShape([a0, a1]);
    var b := Group([a0, a1]);
    var s := [ScoreArea(k, [a0, a1])];
    assert b.keys == [k] && b.entries[k] == [a0, a1];
    var r := AreaScores(b);
    assert |r| == 1 && r[0] == s[0];
    assert r == s;
    MeanOfOne(s);
    assert RiskProfileOf([a0, a1]) == RiskProfile(Mean(s), s, RecommendationsFor(b));
  }

  /** The mean of a single score is that score. */
  lemma MeanOfOne(s: seq<AreaScore>)
    requires |s| == 1
    ensures Mean(s) == Finite(s[0].score)
  {
    assert s[..0] == [];
    var x := s[0].score;
    assert SumScores(s) == x;
    assert |s| as real == 1.0;
    assert x / 1.0 == x;
  }

  /** The two password rules add nothing when neither password question is answered. */
  lemma PasswordRulesSilent(answers: seq<UserAnswer>)
    requires FindAnswer(answers, "pwd-1") == None && FindAnswer(answers, "pwd-2") == None
    ensures Expected(2, answers) == []
  {
    assert Expected(1, answers) == [];
  }

  /** The two device rules add nothing when neither device question is answered. */
  lemma DeviceRulesSilent(answers: seq<UserAnswer>)
    requires FindAnswer(answers, "dev-1") == None && FindAnswer(answers, "dev-2") == None
    ensures Expected(4, answers) == Expected(2, answers)
  {
    assert Expected(3, answers) == Expected(2, answers);
  }

  /** The two privacy rules add nothing when neither privacy question is answered. */
  lemma PrivacyRulesSilent(answers: seq<UserAnswer>)
    requires FindAnswer(answers, "priv-1") == None && FindAnswer(answers, "priv-2") == None
    ensures Expected(6, answers) == Expected(4, answers)
  {
    assert Expected(5, answers) == Expected(4, answers);
  }

  /** Both password questions answered with the maximum risk, nothing else answered. */
  lemma PasswordsAtMaximum(a0: UserAnswer, a1: UserAnswer)
    requires a0 == UserAnswer("pwd-1", "same-all", 10) && a1 == UserAnswer("pwd-2", "never", 10)
    ensures RiskProfileOf([a0, a1]) ==
              RiskProfile(Finite(100.0), [AreaScore("passwords", 100.0)],
                          [Recommendation("rec-pwd-manager", High), Recommendation("rec-2fa", High)])
  {
    PasswordsOwner();
    TwoAnswersProfile(a0, a1, "passwords");
    AreaIds("passwords");
    ScorePerPoint("passwords", [a0, a1]);
    PairTotal(a0, a1);
    RecommendationsFromAnswers([a0, a1]);
    PasswordsAtMaximumRecommendations(a0, a1);
  }

  lemma PasswordsAtMaximumRecommendations(a0: UserAnswer, a1: UserAnswer)
    requires a0 == UserAnswer("pwd-1", "same-all", 10) && a1 == UserAnswer("pwd-2", "never", 10)
    ensures Expected(|Rules|, [a0, a1]) == [Recommendation("rec-pwd-manager", High), Recommendation("rec-2fa", High)]
  {
    var answers := [a0, a1];
    assert FindAnswer(answers, "pwd-1") == Some(a0);
    assert FindAnswer(answers, "pwd-2") == Some(a1);
    assert FindAnswer(answers, "dev-1") == None;
    assert FindAnswer(answers, "dev-2") == None;
    assert FindAnswer(answers, "priv-1") == None;
    assert FindAnswer(answers, "priv-2") == None;
    DeviceRulesSilent(answers);
    PrivacyRulesSilent(answers);
    assert Expected(1, answers) == [Recommendation("rec-pwd-manager", High)];
    assert Expected(2, answers) == [Recommendation("rec-pwd-manager", High), Recommendation("rec-2fa", High)];
  }

  /**
   * Both device questions answered with risk 5: the area scores 50, and only
   * `rec-updates` fires, since 5 is above 4 but not above 5.
   */
  lemma DevicesAtMid(a0: UserAnswer, a1: UserAnswer)
    requires a0 == UserAnswer("dev-1", "eventually", 5) && a1 == UserAnswer("dev-2", "mid", 5)
    ensures RiskProfileOf([a0, a1]) ==
              RiskProfile(Finite(50.0), [AreaScore("devices", 50.0)], [Recommendation("rec-updates", Medium)])
  {
    DevicesOwner();
    TwoAnswersProfile(a0, a1, "devices");
    AreaIds("devices");
    ScorePerPoint("devices", [a0, a1]);
    PairTotal(a0, a1);
    RecommendationsFromAnswers([a0, a1]);
    DevicesAtMidRecommendations(a0, a1);
  }

  lemma DevicesAtMidRecommendations(a0: UserAnswer, a1: UserAnswer)
    requires a0 == UserAnswer("dev-1", "eventually", 5) && a1 == UserAnswer("dev-2", "mid", 5)
    ensures Expected(|Rules|, [a0, a1]) == [Recommendation("rec-updates", Medium)]
  {
    var answers := [a0, a1];
    assert FindAnswer(answers, "pwd-1") == None;
    assert FindAnswer(answers, "pwd-2") == None;
    assert FindAnswer(answers, "dev-1") == Some(a0);
    assert FindAnswer(answers, "dev-2") == Some(a1);
    assert FindAnswer(answers, "priv-1") == None;
    assert FindAnswer(answers, "priv-2") == None;
    PasswordRulesSilent(answers);
    PrivacyRulesSilent(answers);
    assert Expected(3, answers) == [Recommendation("rec-updates", Medium)];
    assert Expected(4, answers) == Expected(3, answers);
  }

  /**
   * Both privacy questions answered with risk 5: the area scores 50;
   * `rec-permissions` fires with Medium priority and `rec-phishing` with Low,
   * its default below the upper threshold.
   */
  lemma PrivacyAtMid(a0: UserAnswer, a1: UserAnswer)
    requires a0 == UserAnswer("priv-1", "mid", 5) && a1 == UserAnswer("priv-2", "mid", 5)
    ensures RiskProfileOf([a0, a1]) ==
              RiskProfile(Finite(50.0), [AreaScore("privacy", 50.0)],
                          [Recommendation("rec-permissions", Medium), Recommendation("rec-phishing", Low)])
  {
    PrivacyOwner();
    TwoAnswersProfile(a0, a1, "privacy");
    AreaIds("privacy");
    ScorePerPoint("privacy", [a0, a1]);
    PairTotal(a0, a1);
    RecommendationsFromAnswers([a0, a1]);
    PrivacyAtMidRecommendations(a0, a1);
  }

  lemma PrivacyAtMidRecommendations(a0: UserAnswer, a1: UserAnswer)
    requires a0 == UserAnswer("priv-1", "mid", 5) && a1 == UserAnswer("priv-2", "mid", 5)
    ensures Expected(|Rules|, [a0, a1]) == [Recommendation("rec-permissions", Medium), Recommendation("rec-phishing", Low)]
  {
    var answers := [a0, a1];
    assert FindAnswer(answers, "pwd-1") == None;
    assert FindAnswer(answers, "pwd-2") == None;
    assert FindAnswer(answers, "dev-1") == None;
    assert FindAnswer(answers, "dev-2") == None;
    assert FindAnswer(answers, "priv-1") == Some(a0);
    assert FindAnswer(answers, "priv-2") == Some(a1);
    PasswordRulesSilent(answers);
    DeviceRulesSilent(answers);
    assert Expected(5, answers) == [Recommendation("rec-permissions", Medium)];
  }
}
