/**
 * Properties of `calculateRiskScore`, stated against definitions that do not
 * follow the grouping loop: which answers belong to an area, where an area
 * first appears among the answers, and which answer a rule reads.
 *
 * The grouping lemmas are proved for any question-to-area function `owner`
 * and then used with the catalog's `Owner`.
 */
module RiskProperties {
  import opened Options
  import opened Catalog
  import opened RiskAnalysis

  /** The answers whose question belongs to area `k`, in submission order. */
  function InArea(owner: string -> Option<string>, answers: seq<UserAnswer>, k: string): seq<UserAnswer> {
    if answers == [] then []
    else (if owner(answers[0].questionId) == Some(k) then [answers[0]] else []) + InArea(owner, answers[1..], k)
  }

  /** The position of the first answer that belongs to area `k`, or the length when none does. */
  function FirstIndex(owner: string -> Option<string>, answers: seq<UserAnswer>, k: string): nat {
    if answers == [] then 0
    else if owner(answers[0].questionId) == Some(k) then 0
    else 1 + FirstIndex(owner, answers[1..], k)
  }

  lemma {:induction false} InAreaSnoc(owner: string -> Option<string>, answers: seq<UserAnswer>, a: UserAnswer, k: string)
    ensures InArea(owner, answers + [a], k) == InArea(owner, answers, k) + (if owner(a.questionId) == Some(k) then [a] else [])
  {
    if answers != [] {
      var head := if owner(answers[0].questionId) == Some(k) then [answers[0]] else [];
      var tail := if owner(a.questionId) == Some(k) then [a] else [];
      assert (answers + [a])[0] == answers[0];
      assert (answers + [a])[1..] == answers[1..] + [a];
      InAreaSnoc(owner, answers[1..], a, k);
      assert InArea(owner, answers + [a], k) == head + (InArea(owner, answers[1..], k) + tail);
      assert head + (InArea(owner, answers[1..], k) + tail) == (head + InArea(owner, answers[1..], k)) + tail;
    }
  }

  lemma {:induction false} InAreaMembers(owner: string -> Option<string>, answers: seq<UserAnswer>, k: string)
    ensures forall x :: x in InArea(owner, answers, k) <==> x in answers && owner(x.questionId) == Some(k)
  {
    if answers != [] {
      InAreaMembers(owner, answers[1..], k);
      assert answers == [answers[0]] + answers[1..];
    }
  }

  lemma {:induction false} FirstIndexFacts(owner: string -> Option<string>, answers: seq<UserAnswer>, k: string)
    ensures FirstIndex(owner, answers, k) <= |answers|
    ensures FirstIndex(owner, answers, k) < |answers| <==> InArea(owner, answers, k) != []
  {
    if answers != [] {
      FirstIndexFacts(owner, answers[1..], k);
    }
  }

  lemma {:induction false} FirstIndexSnoc(owner: string -> Option<string>, answers: seq<UserAnswer>, a: UserAnswer, k: string)
    ensures FirstIndex(owner, answers + [a], k) ==
      if FirstIndex(owner, answers, k) < |answers| then FirstIndex(owner, answers, k)
      else if owner(a.questionId) == Some(k) then |answers| else |answers| + 1
  {
    FirstIndexFacts(owner, answers, k);
    if answers != [] {
      assert (answers + [a])[1..] == answers[1..] + [a];
      FirstIndexSnoc(owner, answers[1..], a, k);
    }
  }

  lemma {:induction false} GroupByWellFormed(owner: string -> Option<string>, answers: seq<UserAnswer>)
    ensures WellFormed(GroupBy(owner, answers))
    decreases |answers|
  {
    if answers != [] {
      var b := GroupBy(owner, answers[..|answers| - 1]);
      GroupByWellFormed(owner, answers[..|answers| - 1]);
      var a := answers[|answers| - 1];
      if owner(a.questionId).Some? && owner(a.questionId).value !in b.entries {
        var keys := b.keys + [owner(a.questionId).value];
        assert forall i :: 0 <= i < |b.keys| ==> keys[i] == b.keys[i];
      }
    }
  }

  /**
   * The grouping's buckets: an area has a bucket exactly when some answer
   * belongs to it, and the bucket holds exactly those answers, in submission order.
   */
  lemma {:induction false} GroupByEntries(owner: string -> Option<string>, answers: seq<UserAnswer>)
    ensures forall k :: k in GroupBy(owner, answers).entries <==> InArea(owner, answers, k) != []
    ensures forall k :: k in GroupBy(owner, answers).entries ==> GroupBy(owner, answers).entries[k] == InArea(owner, answers, k)
    decreases |answers|
  {
    if answers != [] {
      var prefix := answers[..|answers| - 1];
      var a := answers[|answers| - 1];
      assert answers == prefix + [a];
      GroupByEntries(owner, prefix);
      assert GroupBy(owner, answers) == PlaceBy(owner, GroupBy(owner, prefix), a);
      forall k
        ensures InArea(owner, answers, k) == InArea(owner, prefix, k) + (if owner(a.questionId) == Some(k) then [a] else [])
      {
        InAreaSnoc(owner, prefix, a, k);
      }
    }
  }

  /** The grouping's keys are ordered by each area's first appearance among the answers. */
  lemma {:induction false} GroupByOrder(owner: string -> Option<string>, answers: seq<UserAnswer>)
    ensures forall i, j :: 0 <= i < j < |GroupBy(owner, answers).keys| ==>
              FirstIndex(owner, answers, GroupBy(owner, answers).keys[i]) < FirstIndex(owner, answers, GroupBy(owner, answers).keys[j])
    decreases |answers|
  {
    if answers != [] {
      var prefix := answers[..|answers| - 1];
      var a := answers[|answers| - 1];
      assert answers == prefix + [a];
      GroupByOrder(owner, prefix);
      GroupByEntries(owner, prefix);
      GroupByWellFormed(owner, prefix);
      var before := GroupBy(owner, prefix);
      var after := GroupBy(owner, answers);
      assert after == PlaceBy(owner, before, a);
      forall k
        ensures FirstIndex(owner, answers, k) == (if FirstIndex(owner, prefix, k) < |prefix| then FirstIndex(owner, prefix, k)
                  else if owner(a.questionId) == Some(k) then |prefix| else |prefix| + 1)
        ensures FirstIndex(owner, prefix, k) < |prefix| <==> InArea(owner, prefix, k) != []
      {
        FirstIndexSnoc(owner, prefix, a, k);
        FirstIndexFacts(owner, prefix, k);
      }
      // Every key already present first appears within the prefix.
      forall i | 0 <= i < |before.keys|
        ensures FirstIndex(owner, prefix, before.keys[i]) < |prefix|
      {
        assert before.keys[i] in before.entries;
      }
      match owner(a.questionId)
      case None =>
      case Some(m) =>
        if m !in before.entries {
          assert after.keys == before.keys + [m];
          assert FirstIndex(owner, answers, m) == |prefix|;
        }
    }
  }

  /** The bucket of area `k` holds exactly the answers whose question the catalog places in `k`. */
  lemma BucketIsInArea(answers: seq<UserAnswer>, k: string)
    ensures BucketOf(Group(answers), k) == InArea(Owner, answers, k)
  {
    GroupByEntries(Owner, answers);
  }

  /**
   * Each answer lands in the bucket of the catalog area that owns its question,
   * and in no other; an answer whose question no area holds is in no bucket.
   */
  lemma AnswerPlacement(answers: seq<UserAnswer>, n: nat, k: string)
    requires n < |answers|
    ensures answers[n] in BucketOf(Group(answers), k) <==> Owner(answers[n].questionId) == Some(k)
    ensures Owner(answers[n].questionId).None? ==> answers[n] !in BucketOf(Group(answers), k)
  {
    BucketIsInArea(answers, k);
    InAreaMembers(Owner, answers, k);
  }

  /** Only the two password questions belong to `passwords`, and so on for each area. */
  lemma OwnedQuestions(q: string)
    ensures Owner(q) == Some("passwords") ==> q == "pwd-1" || q == "pwd-2"
    ensures Owner(q) == Some("devices") ==> q == "dev-1" || q == "dev-2"
    ensures Owner(q) == Some("privacy") ==> q == "priv-1" || q == "priv-2"
  {
  }

  /** The area scores are the scores of the grouping's keys, each over the answers of its area. */
  lemma KeyScores(answers: seq<UserAnswer>)
    requires answers != []
    ensures KeysAreAreas(Group(answers))
    ensures |RiskProfileOf(answers).areaScores| == |Group(answers).keys|
    ensures forall i :: 0 <= i < |Group(answers).keys| ==>
              RiskProfileOf(answers).areaScores[i] == ScoreArea(Group(answers).keys[i], InArea(Owner, answers, Group(answers).keys[i]))
  {
    GroupByEntries(Owner, answers);
    GroupShape(answers);
    var b := Group(answers);
    assert RiskProfileOf(answers).areaScores == ScoresOf(b.keys, b.entries);
  }

  /**
   * Each area score of a non-empty answer list is for a catalog area that
   * received an answer, and is 100 times the risk total of the area's answers
   * over 10 times the area's full question count.
   */
  lemma AreaScoresContents(answers: seq<UserAnswer>)
    requires answers != []
    ensures forall i :: 0 <= i < |RiskProfileOf(answers).areaScores| ==>
              var e := RiskProfileOf(answers).areaScores[i];
              IsAreaId(e.areaId) && InArea(Owner, answers, e.areaId) != [] &&
              e.score == Total(InArea(Owner, answers, e.areaId)) as real / (QuestionCount(e.areaId) * MaxRisk) as real * 100.0
  {
    KeyScores(answers);
    GroupByEntries(Owner, answers);
    GroupShape(answers);
    var keys := Group(answers).keys;
    forall i | 0 <= i < |keys|
      ensures InArea(Owner, answers, keys[i]) != []
    {
      assert keys[i] in keys;
    }
  }

  /** Every area that received an answer has an area score. */
  lemma AreaScoresCover(answers: seq<UserAnswer>)
    requires answers != []
    ensures forall k :: InArea(Owner, answers, k) != [] ==>
              exists i :: 0 <= i < |RiskProfileOf(answers).areaScores| && RiskProfileOf(answers).areaScores[i].areaId == k
  {
    KeyScores(answers);
    GroupByEntries(Owner, answers);
    GroupShape(answers);
    var keys := Group(answers).keys;
    var s := RiskProfileOf(answers).areaScores;
    forall k | InArea(Owner, answers, k) != []
      ensures exists i :: 0 <= i < |s| && s[i].areaId == k
    {
      var i :| 0 <= i < |keys| && keys[i] == k;
      assert s[i].areaId == k;
    }
  }

  /**
   * No area has two scores, and the scores come in the order in which the
   * areas first appear among the answers, not in catalog order.
   */
  lemma AreaScoresOrder(answers: seq<UserAnswer>)
    requires answers != []
    ensures forall i, j :: 0 <= i < j < |RiskProfileOf(answers).areaScores| ==>
              RiskProfileOf(answers).areaScores[i].areaId != RiskProfileOf(answers).areaScores[j].areaId &&
              FirstIndex(Owner, answers, RiskProfileOf(answers).areaScores[i].areaId) <
              FirstIndex(Owner, answers, RiskProfileOf(answers).areaScores[j].areaId)
  {
    KeyScores(answers);
    GroupByOrder(Owner, answers);
    var keys := Group(answers).keys;
    var s := RiskProfileOf(answers).areaScores;
    assert forall i :: 0 <= i < |s| ==> s[i].areaId == keys[i];
  }

  /** The catalog's area ids. */
  lemma AreaIds(k: string)
    ensures IsAreaId(k) <==> k == "passwords" || k == "devices" || k == "privacy"
  {
    CatalogFacts();
    if k == "passwords" { assert RiskAreas[0].id == k; }
    if k == "devices" { assert RiskAreas[1].id == k; }
    if k == "privacy" { assert RiskAreas[2].id == k; }
  }

  /** No two answers to the same question. */
  predicate OnePerQuestion(answers: seq<UserAnswer>) {
    forall i, j :: 0 <= i < j < |answers| ==> answers[i].questionId != answers[j].questionId
  }

  /** No two answers to the same question, and every risk score within 0..MaxRisk. */
  predicate ValidAnswers(answers: seq<UserAnswer>) {
    OnePerQuestion(answers) && forall i :: 0 <= i < |answers| ==> 0 <= answers[i].riskScore <= MaxRisk
  }

  lemma {:induction false} InAreaValid(owner: string -> Option<string>, answers: seq<UserAnswer>, k: string)
    requires ValidAnswers(answers)
    ensures ValidAnswers(InArea(owner, answers, k))
  {
    if answers != [] {
      var tail := answers[1..];
      assert ValidAnswers(tail) by {
        assert forall i :: 0 <= i < |tail| ==> tail[i] == answers[i + 1];
      }
      InAreaValid(owner, tail, k);
      InAreaMembers(owner, tail, k);
      forall x | x in tail
        ensures x.questionId != answers[0].questionId
      {
        var j :| 0 <= j < |tail| && tail[j] == x;
        assert answers[j + 1] == x;
      }
    }
  }

  /** Answers to pairwise different questions drawn from `ids` number at most `|ids|`. */
  lemma {:induction false} DistinctWithin(xs: seq<UserAnswer>, ids: set<string>)
    requires OnePerQuestion(xs)
    requires forall i :: 0 <= i < |xs| ==> xs[i].questionId in ids
    ensures |xs| <= |ids|
  {
    if xs != [] {
      var tail := xs[1..];
      assert forall i :: 0 <= i < |tail| ==> tail[i] == xs[i + 1];
      DistinctWithin(tail, ids - {xs[0].questionId});
    }
  }

  /** Under `ValidAnswers`, no area receives more answers than it has questions. */
  lemma BucketSize(answers: seq<UserAnswer>, k: string)
    requires ValidAnswers(answers) && IsAreaId(k)
    ensures |InArea(Owner, answers, k)| <= QuestionCount(k)
  {
    AreaIds(k);
    AreaHasQuestions(k);
    var xs := InArea(Owner, answers, k);
    InAreaValid(Owner, answers, k);
    InAreaMembers(Owner, answers, k);
    var ids := if k == "passwords" then {"pwd-1", "pwd-2"}
               else if k == "devices" then {"dev-1", "dev-2"}
               else {"priv-1", "priv-2"};
    forall i | 0 <= i < |xs|
      ensures xs[i].questionId in ids
    {
      assert xs[i] in xs;
      OwnedQuestions(xs[i].questionId);
    }
    assert |ids| <= 2 by {
      if k == "passwords" { assert ids == {"pwd-1"} + {"pwd-2"}; }
      else if k == "devices" { assert ids == {"dev-1"} + {"dev-2"}; }
      else { assert ids == {"priv-1"} + {"priv-2"}; }
    }
    DistinctWithin(xs, ids);
  }

  lemma {:induction false} TotalBounds(xs: seq<UserAnswer>)
    requires forall i :: 0 <= i < |xs| ==> 0 <= xs[i].riskScore <= MaxRisk
    ensures 0 <= Total(xs) <= MaxRisk * |xs|
  {
    if xs != [] {
      TotalBounds(xs[..|xs| - 1]);
    }
  }

  lemma {:induction false} TotalConstant(xs: seq<UserAnswer>, c: int)
    requires forall i :: 0 <= i < |xs| ==> xs[i].riskScore == c
    ensures Total(xs) == c * |xs|
  {
    if xs != [] {
      TotalConstant(xs[..|xs| - 1], c);
    }
  }

  /** A bucket of in-range answers no longer than the area's question count scores within 0..100. */
  lemma ScoreAreaBounds(areaId: string, bucket: seq<UserAnswer>)
    requires IsAreaId(areaId) && |bucket| <= QuestionCount(areaId)
    requires forall i :: 0 <= i < |bucket| ==> 0 <= bucket[i].riskScore <= MaxRisk
    ensures 0.0 <= ScoreArea(areaId, bucket).score <= 100.0
  {
    AreaHasQuestions(areaId);
    TotalBounds(bucket);
  }

  /** Every catalog area has two questions, so each point of risk in its bucket is worth 5 points of score. */
  lemma ScorePerPoint(areaId: string, bucket: seq<UserAnswer>)
    requires IsAreaId(areaId)
    ensures ScoreArea(areaId, bucket).score == 5.0 * Total(bucket) as real
  {
    AreaHasQuestions(areaId);
  }

  /**
   * Every question of an area answered with the maximum risk gives 100;
   * zero-risk answers give 0; answering one of two questions with the maximum
   * gives 50, since the denominator counts the unanswered question too.
   */
  lemma ScoreAreaExtremes(areaId: string, bucket: seq<UserAnswer>)
    requires IsAreaId(areaId)
    ensures (forall i :: 0 <= i < |bucket| ==> bucket[i].riskScore == MaxRisk) && |bucket| == QuestionCount(areaId) ==>
              ScoreArea(areaId, bucket).score == 100.0
    ensures (forall i :: 0 <= i < |bucket| ==> bucket[i].riskScore == 0) ==> ScoreArea(areaId, bucket).score == 0.0
    ensures |bucket| == 1 && bucket[0].riskScore == MaxRisk ==> ScoreArea(areaId, bucket).score == 50.0
  {
    AreaHasQuestions(areaId);
    if forall i :: 0 <= i < |bucket| ==> bucket[i].riskScore == MaxRisk {
      TotalConstant(bucket, MaxRisk);
    }
    if forall i :: 0 <= i < |bucket| ==> bucket[i].riskScore == 0 {
      TotalConstant(bucket, 0);
    }
    if |bucket| == 1 {
      assert bucket[..0] == [];
    }
  }

  /** With at most one answer per question and in-range risk scores, every area score lies within 0..100. */
  lemma AreaScoresBounded(answers: seq<UserAnswer>)
    requires ValidAnswers(answers)
    ensures forall i :: 0 <= i < |RiskProfileOf(answers).areaScores| ==>
              0.0 <= RiskProfileOf(answers).areaScores[i].score <= 100.0
  {
    if answers != [] {
      KeyScores(answers);
      var keys := Group(answers).keys;
      forall i | 0 <= i < |keys|
        ensures 0.0 <= RiskProfileOf(answers).areaScores[i].score <= 100.0
      {
        assert keys[i] in keys;
        var xs := InArea(Owner, answers, keys[i]);
        BucketSize(answers, keys[i]);
        InAreaValid(Owner, answers, keys[i]);
        ScoreAreaBounds(keys[i], xs);
      }
    }
  }

  lemma {:induction false} SumScoresBounds(s: seq<AreaScore>)
    requires forall i :: 0 <= i < |s| ==> 0.0 <= s[i].score <= 100.0
    ensures 0.0 <= SumScores(s) <= 100.0 * |s| as real
  {
    if s != [] {
      SumScoresBounds(s[..|s| - 1]);
    }
  }

  /** The mean of scores within 0..100 lies within 0..100. */
  lemma MeanBounds(s: seq<AreaScore>)
    requires forall i :: 0 <= i < |s| ==> 0.0 <= s[i].score <= 100.0
    ensures Mean(s).Finite? ==> 0.0 <= Mean(s).value <= 100.0
  {
    if s != [] {
      SumScoresBounds(s);
      var n := |s| as real;
      assert SumScores(s) / n <= 100.0 by {
        assert SumScores(s) <= 100.0 * n;
      }
    }
  }

  /** The grouping has no key exactly when no answer's question has an owner. */
  lemma {:induction false} GroupByKeysEmpty(owner: string -> Option<string>, answers: seq<UserAnswer>)
    ensures GroupBy(owner, answers).keys == [] <==> forall i :: 0 <= i < |answers| ==> owner(answers[i].questionId).None?
    decreases |answers|
  {
    if answers != [] {
      var prefix := answers[..|answers| - 1];
      var a := answers[|answers| - 1];
      GroupByKeysEmpty(owner, prefix);
      GroupByWellFormed(owner, prefix);
      assert forall i :: 0 <= i < |prefix| ==> prefix[i] == answers[i];
      var before := GroupBy(owner, prefix);
      if owner(a.questionId).Some? && owner(a.questionId).value in before.entries {
        assert owner(a.questionId).value in before.keys;
      }
    }
  }

  /**
   * For a non-empty answer list the overall score is the mean of the area
   * scores; with at least one area score, it is their sum over their count.
   */
  lemma OverallIsMean(answers: seq<UserAnswer>)
    requires answers != []
    ensures RiskProfileOf(answers).overallScore == Mean(RiskProfileOf(answers).areaScores)
    ensures RiskProfileOf(answers).areaScores != [] ==>
              RiskProfileOf(answers).overallScore ==
                Finite(SumScores(RiskProfileOf(answers).areaScores) / |RiskProfileOf(answers).areaScores| as real)
  {
    var b := Group(answers);
    GroupShape(answers);
    var scores := AreaScores(b);
    var p := RiskProfileOf(answers);
    assert p == RiskProfile(Mean(scores), scores, RecommendationsFor(b));
    assert p.areaScores == scores && p.overallScore == Mean(scores);
  }

  /**
   * A non-empty answer list gets the NaN overall score exactly when none of its
   * answers is to a catalog question: then no area has a score and the mean is 0 / 0.
   */
  lemma OverallScoreNaN(answers: seq<UserAnswer>)
    requires answers != []
    ensures RiskProfileOf(answers).overallScore.NaN? <==>
              forall i :: 0 <= i < |answers| ==> Owner(answers[i].questionId).None?
  {
    KeyScores(answers);
    GroupByKeysEmpty(Owner, answers);
  }

  /** With at most one answer per question and in-range risk scores, the overall score lies within 0..100. */
  lemma OverallScoreBounded(answers: seq<UserAnswer>)
    requires ValidAnswers(answers)
    ensures RiskProfileOf(answers).overallScore.Finite? ==> 0.0 <= RiskProfileOf(answers).overallScore.value <= 100.0
  {
    var p := RiskProfileOf(answers);
    if answers != [] {
      assert p.overallScore == Mean(p.areaScores);
      AreaScoresBounded(answers);
      MeanBounds(p.areaScores);
    }
  }
}
