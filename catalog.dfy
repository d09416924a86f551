/**
 * The static question catalog `riskAreas`: three areas, each with two
 * questions, each question with four options carrying a risk weight.
 * Display texts (names, descriptions, icons, option texts) are not modelled.
 */
module Catalog {
  import opened Options

  datatype AnswerOption = AnswerOption(value: string, riskScore: int)
  datatype Question = Question(id: string, options: seq<AnswerOption>)
  datatype Area = Area(id: string, questions: seq<Question>)

  /** The largest risk weight of one question ("Max risk is 10 per question"). */
  const MaxRisk: int := 10

  const RiskAreas: seq<Area> := [
    Area("passwords", [
      Question("pwd-1", [AnswerOption("same-all", 10), AnswerOption("few-diff", 7),
                         AnswerOption("many-diff", 4), AnswerOption("pwd-manager", 1)]),
      Question("pwd-2", [AnswerOption("never", 10), AnswerOption("some", 5),
                         AnswerOption("critical", 2), AnswerOption("always", 0)])
    ]),
    Area("devices", [
      Question("dev-1", [AnswerOption("never", 10), AnswerOption("when-broken", 7),
                         AnswerOption("eventually", 5), AnswerOption("immediately", 1)]),
      Question("dev-2", [AnswerOption("no", 10), AnswerOption("free-basic", 6),
                         AnswerOption("paid", 2), AnswerOption("comprehensive", 0)])
    ]),
    Area("privacy", [
      Question("priv-1", [AnswerOption("never-check", 10), AnswerOption("accept-all", 8),
                          AnswerOption("sometimes", 4), AnswerOption("always", 1)]),
      Question("priv-2", [AnswerOption("never", 10), AnswerOption("sometimes", 6),
                          AnswerOption("usually", 3), AnswerOption("always", 0)])
    ])
  ]

  /** `questions.find(q => q.id === id)`: the first question with that id. */
  function FindQuestion(qs: seq<Question>, id: string): (r: Option<Question>)
    ensures r.Some? ==> r.value in qs && r.value.id == id
    ensures r.None? <==> forall i :: 0 <= i < |qs| ==> qs[i].id != id
  {
    if qs == [] then None
    else if qs[0].id == id then Some(qs[0])
    else FindQuestion(qs[1..], id)
  }

  /** The first question with the id is the one found. */
  lemma {:induction false} FindQuestionFirst(qs: seq<Question>, id: string, i: nat)
    requires i < |qs| && qs[i].id == id
    requires forall j :: 0 <= j < i ==> qs[j].id != id
    ensures FindQuestion(qs, id) == Some(qs[i])
    decreases i
  {
    if i > 0 {
      forall j | 0 <= j < i - 1
        ensures qs[1..][j].id != id
      {
        assert qs[1..][j] == qs[j + 1];
      }
      FindQuestionFirst(qs[1..], id, i - 1);
    }
  }

  /** `options.find(o => o.value === value)`: the first option with that value. */
  function FindOption(os: seq<AnswerOption>, value: string): (r: Option<AnswerOption>)
    ensures r.Some? ==> r.value in os && r.value.value == value
    ensures r.None? <==> forall i :: 0 <= i < |os| ==> os[i].value != value
  {
    if os == [] then None
    else if os[0].value == value then Some(os[0])
    else FindOption(os[1..], value)
  }

  /** The first option with the value is the one found. */
  lemma {:induction false} FindOptionFirst(os: seq<AnswerOption>, value: string, i: nat)
    requires i < |os| && os[i].value == value
    requires forall j :: 0 <= j < i ==> os[j].value != value
    ensures FindOption(os, value) == Some(os[i])
    decreases i
  {
    if i > 0 {
      forall j | 0 <= j < i - 1
        ensures os[1..][j].value != value
      {
        assert os[1..][j] == os[j + 1];
      }
      FindOptionFirst(os[1..], value, i - 1);
    }
  }

  predicate HasQuestion(area: Area, id: string) {
    FindQuestion(area.questions, id).Some?
  }

  /**
   * The index of the first area, from `from` on, that holds a question with
   * this id: the `for (const area of riskAreas) ... break` scan.
   */
  function OwnerFrom(id: string, from: nat): (r: Option<nat>)
    requires from <= |RiskAreas|
    ensures r.Some? ==> from <= r.value < |RiskAreas| && HasQuestion(RiskAreas[r.value], id)
    ensures r.Some? ==> forall j :: from <= j < r.value ==> !HasQuestion(RiskAreas[j], id)
    ensures r.None? <==> forall j :: from <= j < |RiskAreas| ==> !HasQuestion(RiskAreas[j], id)
    decreases |RiskAreas| - from
  {
    if from == |RiskAreas| then None
    else if HasQuestion(RiskAreas[from], id) then Some(from)
    else OwnerFrom(id, from + 1)
  }

  predicate IsAreaId(id: string) {
    exists j :: 0 <= j < |RiskAreas| && RiskAreas[j].id == id
  }

  /** The id of the first catalog area that holds question `id`, if any. */
  function Owner(id: string): (r: Option<string>)
    ensures r.None? <==> forall j :: 0 <= j < |RiskAreas| ==> !HasQuestion(RiskAreas[j], id)
    ensures r.Some? ==> IsAreaId(r.value)
  {
    match OwnerFrom(id, 0)
    case None => None
    case Some(j) => Some(RiskAreas[j].id)
  }

  /** The area at which the scan first finds the question is its owner. */
  lemma OwnerFirst(id: string, j: nat)
    requires j < |RiskAreas| && HasQuestion(RiskAreas[j], id)
    requires forall k :: 0 <= k < j ==> !HasQuestion(RiskAreas[k], id)
    ensures Owner(id) == Some(RiskAreas[j].id)
  {
    assert OwnerFrom(id, 0) == Some(j);
  }

  /** `riskAreas.find(a => a.id === id)`. */
  function FindArea(areas: seq<Area>, id: string): (r: Option<Area>)
    ensures r.Some? ==> r.value in areas && r.value.id == id
    ensures r.None? <==> forall i :: 0 <= i < |areas| ==> areas[i].id != id
  {
    if areas == [] then None
    else if areas[0].id == id then Some(areas[0])
    else FindArea(areas[1..], id)
  }

  /** The first area with the id is the one found. */
  lemma {:induction false} FindAreaFirst(areas: seq<Area>, id: string, i: nat)
    requires i < |areas| && areas[i].id == id
    requires forall j :: 0 <= j < i ==> areas[j].id != id
    ensures FindArea(areas, id) == Some(areas[i])
    decreases i
  {
    if i > 0 {
      forall j | 0 <= j < i - 1
        ensures areas[1..][j].id != id
      {
        assert areas[1..][j] == areas[j + 1];
      }
      FindAreaFirst(areas[1..], id, i - 1);
    }
  }

  /** The number of questions of the area with this id (0 for an unknown id). */
  function QuestionCount(areaId: string): (r: nat)
    ensures forall j :: 0 <= j < |RiskAreas| && RiskAreas[j].id == areaId ==> r == |RiskAreas[j].questions|
    ensures (forall j :: 0 <= j < |RiskAreas| ==> RiskAreas[j].id != areaId) ==> r == 0
  {
    match FindArea(RiskAreas, areaId)
    case None => 0
    case Some(a) => |a.questions|
  }

  /**
   * `allAreas.reduce((total, area) => total + area.questions.length, 0)`:
   * no smaller than any one area's count, and 0 exactly when no area has a question.
   */
  function CountQuestions(areas: seq<Area>): (r: nat)
    ensures forall j :: 0 <= j < |areas| ==> |areas[j].questions| <= r
    ensures r == 0 <==> forall j :: 0 <= j < |areas| ==> areas[j].questions == []
  {
    if areas == [] then 0
    else
      var rest := CountQuestions(areas[1..]);
      assert forall j :: 0 < j < |areas| ==> areas[j] == areas[1..][j - 1];
      |areas[0].questions| + rest
  }

  /** `totalQuestions`: the catalog's three areas of two questions make six. */
  function TotalQuestions(): (r: nat)
    ensures r == 6
  {
    assert RiskAreas[1..][1..][1..] == [];
    CountQuestions(RiskAreas)
  }

  lemma CatalogFacts()
    ensures |RiskAreas| == 3
    ensures forall j :: 0 <= j < |RiskAreas| ==> |RiskAreas[j].questions| == 2
  {
  }

  /**
   * Every question of the catalog offers four options with distinct values;
   * the first carries the largest weight, `MaxRisk`, and the weights fall
   * strictly from option to option.
   */
  lemma {:induction false} OptionFacts(a: nat, q: nat)
    requires a < |RiskAreas| && q < |RiskAreas[a].questions|
    ensures |RiskAreas[a].questions[q].options| == 4
    ensures RiskAreas[a].questions[q].options[0].riskScore == MaxRisk
    ensures forall i, k :: 0 <= i < k < 4 ==>
              RiskAreas[a].questions[q].options[i].value != RiskAreas[a].questions[q].options[k].value &&
              RiskAreas[a].questions[q].options[i].riskScore > RiskAreas[a].questions[q].options[k].riskScore
  {
    assert a == 0 || a == 1 || a == 2;
    assert q == 0 || q == 1;
  }

  lemma PasswordsOwner()
    ensures Owner("pwd-1") == Some("passwords") && Owner("pwd-2") == Some("passwords")
  {
    assert OwnerFrom("pwd-1", 0) == Some(0);
    assert OwnerFrom("pwd-2", 0) == Some(0);
  }

  lemma DevicesOwner()
    ensures Owner("dev-1") == Some("devices") && Owner("dev-2") == Some("devices")
  {
    assert OwnerFrom("dev-1", 0) == Some(1);
    assert OwnerFrom("dev-2", 0) == Some(1);
  }

  lemma PrivacyOwner()
    ensures Owner("priv-1") == Some("privacy") && Owner("priv-2") == Some("privacy")
  {
    assert OwnerFrom("priv-1", 0) == Some(2);
    assert OwnerFrom("priv-2", 0) == Some(2);
  }
}
