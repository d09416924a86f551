/**
 * Properties of the recommendations `calculateRiskScore` returns. Although the
 * rules read the grouped buckets, each rule's question belongs to the rule's
 * own area, so every rule in effect reads the first answer to its question in
 * the whole answer list; the reference `Expected` is written that way.
 */
module RecommendationProperties {
  import opened Options
  import opened Catalog
  import opened RiskAnalysis
  import opened RiskProperties

  /** The first `k` rules, each applied to the first answer to its question among all answers. */
  function Expected(k: nat, answers: seq<UserAnswer>): seq<Recommendation>
    requires k <= |Rules|
  {
    if k == 0 then []
    else Expected(k - 1, answers) + Outcome(Rules[k - 1], FindAnswer(answers, Rules[k - 1].questionId))
  }

  /** A rule fires when its question was answered and the first such answer is riskier than its threshold. */
  predicate Fires(rule: Rule, answers: seq<UserAnswer>) {
    var found := FindAnswer(answers, rule.questionId);
    found.Some? && found.value.riskScore > rule.fireAbove
  }

  /** The position of the rule with this id in the table, or the table's length when there is none. */
  function RuleIndexFrom(id: string, from: nat): (r: nat)
    requires from <= |Rules|
    ensures from <= r <= |Rules|
    ensures r < |Rules| ==> Rules[r].id == id
    decreases |Rules| - from
  {
    if from == |Rules| then from
    else if Rules[from].id == id then from
    else RuleIndexFrom(id, from + 1)
  }

  function RuleIndex(id: string): nat {
    RuleIndexFrom(id, 0)
  }

  /** Rule ids are unique: each rule is found at its own position. */
  lemma RuleIds()
    ensures forall i :: 0 <= i < |Rules| ==> RuleIndex(Rules[i].id) == i
  {
    assert RuleIndex(Rules[0].id) == 0;
    assert RuleIndex(Rules[1].id) == 1;
    assert RuleIndex(Rules[2].id) == 2;
    assert RuleIndex(Rules[3].id) == 3;
    assert RuleIndex(Rules[4].id) == 4;
    assert RuleIndex(Rules[5].id) == 5;
  }

  lemma RuleIndexOf(i: nat)
    requires i < |Rules|
    ensures RuleIndex(Rules[i].id) == i
  {
    RuleIds();
  }

  /**
   * The table has one rule per catalog question, in catalog order: rule `j`
   * reads question `j % 2` of area `j / 2`; only the last falls back to Low.
   */
  lemma {:induction false} RulesCoverCatalog(j: nat)
    requires j < |Rules|
    ensures |Rules| == 2 * |RiskAreas|
    ensures Rules[j].areaId == RiskAreas[j / 2].id
    ensures j % 2 < |RiskAreas[j / 2].questions| && Rules[j].questionId == RiskAreas[j / 2].questions[j % 2].id
    ensures Rules[j].otherwise == (if j == |Rules| - 1 then Low else Medium)
  {
    assert j == 0 || j == 1 || j == 2 || j == 3 || j == 4 || j == 5;
  }

  /** The question of every rule belongs, in the catalog, to the area whose bucket the rule reads. */
  lemma RuleOwned(i: nat)
    requires i < |Rules|
    ensures Owner(Rules[i].questionId) == Some(Rules[i].areaId)
  {
    var r := Rules[i];
    if i == 0 {
      assert r == Rule("rec-pwd-manager", "passwords", "pwd-1", 3, 7, Medium);
      PasswordsOwner();
    } else if i == 1 {
      assert r == Rule("rec-2fa", "passwords", "pwd-2", 2, 7, Medium);
      PasswordsOwner();
    } else if i == 2 {
      assert r == Rule("rec-updates", "devices", "dev-1", 4, 7, Medium);
      DevicesOwner();
    } else if i == 3 {
      assert r == Rule("rec-antivirus", "devices", "dev-2", 5, 8, Medium);
      DevicesOwner();
    } else if i == 4 {
      assert r == Rule("rec-permissions", "privacy", "priv-1", 4, 8, Medium);
      PrivacyOwner();
    } else {
      assert r == Rule("rec-phishing", "privacy", "priv-2", 3, 7, Low);
      PrivacyOwner();
    }
  }

  /** Each rule fires above a threshold a score can exceed, and turns high only above a larger one. */
  lemma RuleThresholds()
    ensures forall i :: 0 <= i < |Rules| ==> 0 <= Rules[i].fireAbove < Rules[i].highAbove < MaxRisk
  {
  }

  /** Looking up a question of area `k` in `k`'s answers finds what looking it up among all answers finds. */
  lemma {:induction false} FindInArea(owner: string -> Option<string>, answers: seq<UserAnswer>, k: string, q: string)
    requires owner(q) == Some(k)
    ensures FindAnswer(InArea(owner, answers, k), q) == FindAnswer(answers, q)
  {
    if answers != [] {
      FindInArea(owner, answers[1..], k, q);
      var rest := InArea(owner, answers[1..], k);
      if owner(answers[0].questionId) == Some(k) {
        var xs := [answers[0]] + rest;
        assert InArea(owner, answers, k) == xs;
        assert xs[0] == answers[0];
        assert xs[1..] == rest;
      } else {
        assert InArea(owner, answers, k) == rest;
      }
    }
  }

  /** Each rule reads, from its area's bucket, the first answer to its question among all answers. */
  lemma ApplyOnGroup(i: nat, answers: seq<UserAnswer>)
    requires i < |Rules|
    ensures Apply(Rules[i], Group(answers)) == Outcome(Rules[i], FindAnswer(answers, Rules[i].questionId))
  {
    var rule := Rules[i];
    RuleOwned(i);
    BucketIsInArea(answers, rule.areaId);
    FindInArea(Owner, answers, rule.areaId, rule.questionId);
  }

  lemma {:induction false} FireFirstIsExpected(k: nat, answers: seq<UserAnswer>)
    requires k <= |Rules|
    ensures FireFirst(k, Group(answers)) == Expected(k, answers)
  {
    if k > 0 {
      FireFirstIsExpected(k - 1, answers);
      var rule := Rules[k - 1];
      var b := Group(answers);
      ApplyOnGroup(k - 1, answers);
      assert FireFirst(k, b) == FireFirst(k - 1, b) + Apply(rule, b);
      assert Expected(k, answers) == Expected(k - 1, answers) + Outcome(rule, FindAnswer(answers, rule.questionId));
    }
  }

  lemma {:induction false} ExpectedOfNone(k: nat)
    requires k <= |Rules|
    ensures Expected(k, []) == []
  {
    if k > 0 {
      ExpectedOfNone(k - 1);
    }
  }

  /** The recommendations are the rules applied, in table order, to the first answer to each rule's question. */
  lemma RecommendationsFromAnswers(answers: seq<UserAnswer>)
    ensures RiskProfileOf(answers).recommendations == Expected(|Rules|, answers)
  {
    if answers == [] {
      ExpectedOfNone(|Rules|);
    } else {
      FireFirstIsExpected(|Rules|, answers);
    }
  }

  /** The priority of a firing rule's recommendation: High above its upper threshold, its default otherwise. */
  function PriorityFor(rule: Rule, answers: seq<UserAnswer>): Priority
    requires Fires(rule, answers)
  {
    if FindAnswer(answers, rule.questionId).value.riskScore > rule.highAbove then High else rule.otherwise
  }

  /** The first `k` rules yield at most one recommendation each, in rule order. */
  lemma {:induction false} ExpectedOrder(k: nat, answers: seq<UserAnswer>)
    requires k <= |Rules|
    ensures |Expected(k, answers)| <= k
    ensures forall a :: 0 <= a < |Expected(k, answers)| ==> RuleIndex(Expected(k, answers)[a].id) < k
    ensures forall a, b :: 0 <= a < b < |Expected(k, answers)| ==>
              RuleIndex(Expected(k, answers)[a].id) < RuleIndex(Expected(k, answers)[b].id)
  {
    if k > 0 {
      ExpectedOrder(k - 1, answers);
      RuleIndexOf(k - 1);
      var rule := Rules[k - 1];
      var out := Outcome(rule, FindAnswer(answers, rule.questionId));
      OutcomeShape(rule, FindAnswer(answers, rule.questionId));
      assert forall a :: 0 <= a < |out| ==> RuleIndex(out[a].id) == k - 1;
      assert Expected(k, answers) == Expected(k - 1, answers) + out;
      OrderedAppend(Expected(k - 1, answers), out, k - 1);
    }
  }

  /** A rule yields at most one recommendation, and it carries the rule's id. */
  lemma OutcomeShape(rule: Rule, found: Option<UserAnswer>)
    ensures |Outcome(rule, found)| <= 1
    ensures forall a :: 0 <= a < |Outcome(rule, found)| ==> Outcome(rule, found)[a].id == rule.id
  {
  }

  /**
   * Appending at most one recommendation of rule `k` to recommendations of
   * earlier rules, in rule order, keeps them in rule order and below `k + 1`.
   */
  lemma OrderedAppend(prev: seq<Recommendation>, out: seq<Recommendation>, k: nat)
    requires forall a :: 0 <= a < |prev| ==> RuleIndex(prev[a].id) < k
    requires forall a, b :: 0 <= a < b < |prev| ==> RuleIndex(prev[a].id) < RuleIndex(prev[b].id)
    requires |out| <= 1 && forall a :: 0 <= a < |out| ==> RuleIndex(out[a].id) == k
    ensures forall a :: 0 <= a < |prev + out| ==> RuleIndex((prev + out)[a].id) < k + 1
    ensures forall a, b :: 0 <= a < b < |prev + out| ==> RuleIndex((prev + out)[a].id) < RuleIndex((prev + out)[b].id)
  {
    var e := prev + out;
    forall a | 0 <= a < |e|
      ensures RuleIndex(e[a].id) < k + 1
    {
      if a < |prev| { assert e[a] == prev[a]; } else { assert e[a] == out[a - |prev|]; }
    }
    forall a, b | 0 <= a < b < |e|
      ensures RuleIndex(e[a].id) < RuleIndex(e[b].id)
    {
      assert e[a] == prev[a];
      if b < |prev| { assert e[b] == prev[b]; } else { assert e[b] == out[b - |prev|]; }
    }
  }

  /** The ids of a list of recommendations, in order. */
  function Ids(rs: seq<Recommendation>): (r: seq<string>)
    ensures |r| == |rs| && forall a :: 0 <= a < |rs| ==> r[a] == rs[a].id
  {
    seq(|rs|, a requires 0 <= a < |rs| => rs[a].id)
  }

  /** A rule that fires yields its one recommendation with its priority; one that does not yields none. */
  lemma OutcomeFires(rule: Rule, answers: seq<UserAnswer>)
    ensures Fires(rule, answers) ==>
              Outcome(rule, FindAnswer(answers, rule.questionId)) == [Recommendation(rule.id, PriorityFor(rule, answers))]
    ensures !Fires(rule, answers) ==> Outcome(rule, FindAnswer(answers, rule.questionId)) == []
  {
  }

  /** The last of the first `k` rules contributes its recommendation exactly when it fires. */
  lemma NewestFires(k: nat, answers: seq<UserAnswer>)
    requires 0 < k <= |Rules|
    ensures Fires(Rules[k - 1], answers) <==> Rules[k - 1].id in Ids(Expected(k, answers))
    ensures Fires(Rules[k - 1], answers) ==>
              Recommendation(Rules[k - 1].id, PriorityFor(Rules[k - 1], answers)) in Expected(k, answers)
  {
    var before := Expected(k - 1, answers);
    var rule := Rules[k - 1];
    var out := Outcome(rule, FindAnswer(answers, rule.questionId));
    assert Expected(k, answers) == before + out;
    OutcomeFires(rule, answers);
    NotYetFired(k, answers);
    assert Ids(before + out) == Ids(before) + Ids(out);
    if Fires(rule, answers) {
      assert out[0] in before + out;
    }
  }

  /** Before rule `k - 1` is applied, no recommendation carries its id. */
  lemma NotYetFired(k: nat, answers: seq<UserAnswer>)
    requires 0 < k <= |Rules|
    ensures Rules[k - 1].id !in Ids(Expected(k - 1, answers))
  {
    var before := Expected(k - 1, answers);
    RuleIndexOf(k - 1);
    ExpectedOrder(k - 1, answers);
    forall a | 0 <= a < |before|
      ensures Ids(before)[a] != Rules[k - 1].id
    {
      assert RuleIndex(before[a].id) < k - 1;
    }
  }

  /** A later rule's recommendation leaves an earlier rule's presence and priority as they were. */
  lemma OlderFires(k: nat, answers: seq<UserAnswer>, i: nat)
    requires i + 1 < k <= |Rules|
    requires Fires(Rules[i], answers) <==> Rules[i].id in Ids(Expected(k - 1, answers))
    requires Fires(Rules[i], answers) ==> Recommendation(Rules[i].id, PriorityFor(Rules[i], answers)) in Expected(k - 1, answers)
    ensures Fires(Rules[i], answers) <==> Rules[i].id in Ids(Expected(k, answers))
    ensures Fires(Rules[i], answers) ==> Recommendation(Rules[i].id, PriorityFor(Rules[i], answers)) in Expected(k, answers)
  {
    var before := Expected(k - 1, answers);
    var rule := Rules[k - 1];
    var out := Outcome(rule, FindAnswer(answers, rule.questionId));
    assert Expected(k, answers) == before + out;
    OutcomeFires(rule, answers);
    assert Ids(before + out) == Ids(before) + Ids(out);
    if Fires(Rules[i], answers) {
      var x := Recommendation(Rules[i].id, PriorityFor(Rules[i], answers));
      var a :| 0 <= a < |before| && before[a] == x;
      assert (before + out)[a] == x;
    }
    if out != [] {
      assert Ids(out) == [rule.id];
      assert Rules[i].id != rule.id by {
        RuleIndexOf(i);
        RuleIndexOf(k - 1);
      }
    }
  }

  /**
   * Among the first `k` rules, rule `i`'s recommendation is present exactly
   * when the rule fires, and then with the rule's priority.
   */
  lemma {:induction false} ExpectedFiresAt(k: nat, answers: seq<UserAnswer>, i: nat)
    requires i < k <= |Rules|
    ensures Fires(Rules[i], answers) <==> Rules[i].id in Ids(Expected(k, answers))
    ensures Fires(Rules[i], answers) ==> Recommendation(Rules[i].id, PriorityFor(Rules[i], answers)) in Expected(k, answers)
  {
    if i == k - 1 {
      NewestFires(k, answers);
    } else {
      ExpectedFiresAt(k - 1, answers, i);
      OlderFires(k, answers, i);
    }
  }

  /**
   * The recommendations for any answer list: at most one per rule, so at most
   * six; in the fixed rule order (which also means no id twice); a rule's
   * recommendation present exactly when the rule fires on the first answer to
   * its question; and carrying the priority its upper threshold selects.
   */
  lemma RecommendationRules(answers: seq<UserAnswer>)
    ensures |RiskProfileOf(answers).recommendations| <= |Rules|
    ensures forall a :: 0 <= a < |RiskProfileOf(answers).recommendations| ==>
              RuleIndex(RiskProfileOf(answers).recommendations[a].id) < |Rules|
    ensures forall a, b :: 0 <= a < b < |RiskProfileOf(answers).recommendations| ==>
              RuleIndex(RiskProfileOf(answers).recommendations[a].id) < RuleIndex(RiskProfileOf(answers).recommendations[b].id) < |Rules|
    ensures forall i :: 0 <= i < |Rules| ==>
              (Fires(Rules[i], answers) <==> Rules[i].id in Ids(RiskProfileOf(answers).recommendations))
    ensures forall i :: 0 <= i < |Rules| && Fires(Rules[i], answers) ==>
              Recommendation(Rules[i].id, PriorityFor(Rules[i], answers)) in RiskProfileOf(answers).recommendations
  {
    RecommendationsFromAnswers(answers);
    ExpectedOrder(|Rules|, answers);
    forall i | 0 <= i < |Rules|
      ensures Fires(Rules[i], answers) <==> Rules[i].id in Ids(Expected(|Rules|, answers))
      ensures Fires(Rules[i], answers) ==> Recommendation(Rules[i].id, PriorityFor(Rules[i], answers)) in Expected(|Rules|, answers)
    {
      ExpectedFiresAt(|Rules|, answers, i);
    }
  }
}
