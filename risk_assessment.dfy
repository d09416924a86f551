/**
 * The questionnaire wizard of the `RiskAssessment` component: a cursor over
 * the catalog's questions (area index, question index), the answers given so
 * far, and the three handlers that move the cursor and record answers.
 */
module Assessment {
  import opened Options
  import opened Catalog
  import opened RiskAnalysis
  import opened RiskProperties
  import opened RecommendationProperties

  /** A cursor position: an area index and a question index within that area. */
  datatype Cell = Cell(area: nat, question: nat)

  predicate InGrid(areas: seq<Area>, c: Cell) {
    c.area < |areas| && c.question < |areas[c.area].questions|
  }

  /** Every area has a question, as every area of the catalog does. */
  predicate NonEmptyAreas(areas: seq<Area>) {
    forall j :: 0 <= j < |areas| ==> |areas[j].questions| > 0
  }

  /** The position of a cell in the questionnaire: the questions of earlier areas, then its own index. */
  function Position(areas: seq<Area>, c: Cell): nat
    requires c.area <= |areas|
  {
    CountQuestions(areas[..c.area]) + c.question
  }

  /** The branches of `goToNext`: the next question of the area, else the first of the next area, else completion. */
  function NextCell(areas: seq<Area>, c: Cell): Option<Cell>
    requires InGrid(areas, c)
  {
    if c.question < |areas[c.area].questions| - 1 then Some(Cell(c.area, c.question + 1))
    else if c.area < |areas| - 1 then Some(Cell(c.area + 1, 0))
    else None
  }

  /** The branches of `goToPrevious`: the previous question, else the last of the previous area, else stay. */
  function PreviousCell(areas: seq<Area>, c: Cell): Cell
    requires InGrid(areas, c) && NonEmptyAreas(areas)
  {
    if c.question > 0 then Cell(c.area, c.question - 1)
    else if c.area > 0 then Cell(c.area - 1, |areas[c.area - 1].questions| - 1)
    else c
  }

  lemma {:induction false} CountAppend(xs: seq<Area>, ys: seq<Area>)
    ensures CountQuestions(xs + ys) == CountQuestions(xs) + CountQuestions(ys)
  {
    if xs == [] {
      assert xs + ys == ys;
    } else {
      assert (xs + ys)[0] == xs[0];
      assert (xs + ys)[1..] == xs[1..] + ys;
      CountAppend(xs[1..], ys);
    }
  }

  lemma CountPrefix(areas: seq<Area>, a: nat)
    requires a < |areas|
    ensures CountQuestions(areas[..a + 1]) == CountQuestions(areas[..a]) + |areas[a].questions|
    ensures CountQuestions(areas[..a + 1]) <= CountQuestions(areas)
  {
    CountAppend(areas[..a], [areas[a]]);
    assert areas[..a + 1] == areas[..a] + [areas[a]];
    CountAppend(areas[..a + 1], areas[a + 1..]);
    assert areas == areas[..a + 1] + areas[a + 1..];
    assert [areas[a]][1..] == [];
  }

  /** Every cell of the grid has a position below the question count. */
  lemma PositionBound(areas: seq<Area>, c: Cell)
    requires InGrid(areas, c)
    ensures Position(areas, c) < CountQuestions(areas)
  {
    CountPrefix(areas, c.area);
  }

  /**
   * `goToNext` keeps the cursor in the grid and advances its position by one;
   * it completes exactly at the last position.
   */
  lemma NextCellFacts(areas: seq<Area>, c: Cell)
    requires InGrid(areas, c) && NonEmptyAreas(areas)
    ensures NextCell(areas, c).Some? ==>
              InGrid(areas, NextCell(areas, c).value) &&
              Position(areas, NextCell(areas, c).value) == Position(areas, c) + 1
    ensures NextCell(areas, c).None? <==> Position(areas, c) + 1 == CountQuestions(areas)
  {
    CountPrefix(areas, c.area);
    if c.area < |areas| - 1 {
      CountPrefix(areas, c.area + 1);
    } else {
      assert areas[..c.area + 1] == areas;
    }
  }

  /**
   * `goToPrevious` keeps the cursor in the grid and moves its position back by
   * one, except at the first cell, where it stays.
   */
  lemma PreviousCellFacts(areas: seq<Area>, c: Cell)
    requires InGrid(areas, c) && NonEmptyAreas(areas)
    ensures InGrid(areas, PreviousCell(areas, c))
    ensures c == Cell(0, 0) ==> PreviousCell(areas, c) == c
    ensures c != Cell(0, 0) ==> Position(areas, PreviousCell(areas, c)) + 1 == Position(areas, c)
  {
    if c.question == 0 && c.area > 0 {
      CountPrefix(areas, c.area - 1);
    }
  }

  /** Going forward and then back returns to the same cell, and so does going back and then forward. */
  lemma NextPreviousRoundTrip(areas: seq<Area>, c: Cell)
    requires InGrid(areas, c) && NonEmptyAreas(areas)
    ensures NextCell(areas, c).Some? ==> PreviousCell(areas, NextCell(areas, c).value) == c
    ensures c != Cell(0, 0) ==> NextCell(areas, PreviousCell(areas, c)) == Some(c)
  {
    NextCellFacts(areas, c);
    PreviousCellFacts(areas, c);
  }

  /** `answers.filter(a => a.questionId !== id)`. */
  function Without(answers: seq<UserAnswer>, id: string): (r: seq<UserAnswer>)
    ensures forall x :: x in r <==> x in answers && x.questionId != id
  {
    if answers == [] then []
    else (if answers[0].questionId == id then [] else [answers[0]]) + Without(answers[1..], id)
  }

  /** The filter keeps every other answer as often as it occurs and drops every answer to `id`. */
  lemma {:induction false} WithoutCounts(answers: seq<UserAnswer>, id: string)
    ensures forall x :: multiset(Without(answers, id))[x] == if x.questionId == id then 0 else multiset(answers)[x]
  {
    if answers != [] {
      WithoutCounts(answers[1..], id);
      assert answers == [answers[0]] + answers[1..];
    }
  }

  /** Replace the answer to `a`'s question by `a`, or add `a` at the end when there is none. */
  function Upsert(answers: seq<UserAnswer>, a: UserAnswer): (r: seq<UserAnswer>)
    ensures |r| > 0 && r[|r| - 1] == a
    ensures forall x :: x in r <==> x == a || (x in answers && x.questionId != a.questionId)
  {
    Without(answers, a.questionId) + [a]
  }

  lemma {:induction false} WithoutKeepsOne(answers: seq<UserAnswer>, id: string)
    requires OnePerQuestion(answers)
    ensures OnePerQuestion(Without(answers, id))
  {
    if answers != [] {
      var tail := answers[1..];
      assert OnePerQuestion(tail) by {
        assert forall i :: 0 <= i < |tail| ==> tail[i] == answers[i + 1];
      }
      WithoutKeepsOne(tail, id);
      forall x | x in tail
        ensures x.questionId != answers[0].questionId
      {
        var j :| 0 <= j < |tail| && tail[j] == x;
        assert answers[j + 1] == x;
      }
    }
  }

  /** Removing the answers to one question leaves the first answer to every other question where it was found. */
  lemma {:induction false} FindWithout(answers: seq<UserAnswer>, id: string, q: string)
    ensures FindAnswer(Without(answers, id), q) == if q == id then None else FindAnswer(answers, q)
  {
    if answers != [] {
      var head := answers[0];
      FindWithout(answers[1..], id, q);
      var rest := Without(answers[1..], id);
      if head.questionId == id {
        assert Without(answers, id) == rest;
      } else {
        var xs := [head] + rest;
        assert Without(answers, id) == xs;
        assert xs[0] == head && xs[1..] == rest;
        if head.questionId == q {
          assert FindAnswer(xs, q) == Some(head);
        } else {
          assert FindAnswer(xs, q) == FindAnswer(rest, q);
        }
      }
    }
  }

  lemma {:induction false} FindAppendOne(xs: seq<UserAnswer>, a: UserAnswer, q: string)
    ensures FindAnswer(xs + [a], q) == if FindAnswer(xs, q).Some? then FindAnswer(xs, q) else FindAnswer([a], q)
  {
    if xs != [] {
      assert (xs + [a])[0] == xs[0];
      assert (xs + [a])[1..] == xs[1..] + [a];
      FindAppendOne(xs[1..], a, q);
    }
  }

  /**
   * After the upsert the answer to `a`'s question is `a`, every other
   * question keeps its answer, and no question has two answers.
   */
  lemma UpsertFacts(answers: seq<UserAnswer>, a: UserAnswer)
    ensures FindAnswer(Upsert(answers, a), a.questionId) == Some(a)
    ensures forall q :: q != a.questionId ==> FindAnswer(Upsert(answers, a), q) == FindAnswer(answers, q)
    ensures OnePerQuestion(answers) ==> OnePerQuestion(Upsert(answers, a))
  {
    var w := Without(answers, a.questionId);
    forall q
      ensures FindAnswer(Upsert(answers, a), q) == if q == a.questionId then Some(a) else FindAnswer(answers, q)
    {
      FindWithout(answers, a.questionId, q);
      FindAppendOne(w, a, q);
    }
    if OnePerQuestion(answers) {
      WithoutKeepsOne(answers, a.questionId);
      forall i | 0 <= i < |w|
        ensures w[i].questionId != a.questionId
      {
        assert w[i] in w;
      }
    }
  }

  lemma {:induction false} WithoutLength(answers: seq<UserAnswer>, id: string)
    requires OnePerQuestion(answers)
    ensures |Without(answers, id)| == |answers| - if FindAnswer(answers, id).Some? then 1 else 0
  {
    if answers != [] {
      var tail := answers[1..];
      assert OnePerQuestion(tail) by {
        assert forall i :: 0 <= i < |tail| ==> tail[i] == answers[i + 1];
      }
      WithoutLength(tail, id);
      if answers[0].questionId == id {
        assert forall i :: 0 <= i < |tail| ==> tail[i] == answers[i + 1];
        assert FindAnswer(tail, id).None?;
      }
    }
  }

  /** Answering a new question adds one answer; answering an answered one again keeps the count. */
  lemma UpsertLength(answers: seq<UserAnswer>, a: UserAnswer)
    requires OnePerQuestion(answers)
    ensures |Upsert(answers, a)| == |answers| + if FindAnswer(answers, a.questionId).Some? then 0 else 1
  {
    WithoutLength(answers, a.questionId);
  }

  lemma {:induction false} WithoutTwice(answers: seq<UserAnswer>, id: string)
    ensures Without(Without(answers, id), id) == Without(answers, id)
  {
    if answers != [] {
      WithoutTwice(answers[1..], id);
      var rest := Without(answers[1..], id);
      if answers[0].questionId != id {
        var xs := [answers[0]] + rest;
        assert Without(answers, id) == xs;
        assert xs[0] == answers[0] && xs[1..] == rest;
      } else {
        assert Without(answers, id) == rest;
      }
    }
  }

  lemma {:induction false} WithoutAppendOne(xs: seq<UserAnswer>, a: UserAnswer, id: string)
    ensures Without(xs + [a], id) == Without(xs, id) + Without([a], id)
  {
    if xs == [] {
      assert xs + [a] == [a];
    } else {
      assert (xs + [a])[0] == xs[0];
      assert (xs + [a])[1..] == xs[1..] + [a];
      WithoutAppendOne(xs[1..], a, id);
    }
  }

  /** Answering the same question twice keeps only the second answer. */
  lemma UpsertTwice(answers: seq<UserAnswer>, a1: UserAnswer, a2: UserAnswer)
    requires a1.questionId == a2.questionId
    ensures Upsert(Upsert(answers, a1), a2) == Upsert(answers, a2)
  {
    var id := a1.questionId;
    var w := Without(answers, id);
    assert Upsert(answers, a1) == w + [a1];
    WithoutAppendOne(w, a1, id);
    WithoutTwice(answers, id);
    assert Without([a1], id) == [];
    assert Without(w + [a1], id) == w;
  }

  /** The question at a cell of the catalog. */
  function QuestionAt(c: Cell): Question
    requires InGrid(RiskAreas, c)
  {
    RiskAreas[c.area].questions[c.question]
  }

  /** `a` records choosing one of the options of question `q`, with that option's risk score. */
  predicate Chosen(q: Question, a: UserAnswer) {
    q.id == a.questionId && FindOption(q.options, a.answer) == Some(AnswerOption(a.answer, a.riskScore))
  }

  /** An answer the wizard can have recorded: an option of some catalog question. */
  ghost predicate Offered(a: UserAnswer) {
    exists c :: InGrid(RiskAreas, c) && Chosen(QuestionAt(c), a)
  }

  /** The answers the wizard can have recorded: offered ones, at most one per question. */
  ghost predicate Recorded(answers: seq<UserAnswer>) {
    OnePerQuestion(answers) && forall i :: 0 <= i < |answers| ==> Offered(answers[i])
  }

  const AllQuestionIds: set<string> := {"pwd-1", "pwd-2", "dev-1", "dev-2", "priv-1", "priv-2"}

  /** Each area's questions, with the options' values and risk scores, cell by cell. */
  lemma CellFacts(c: Cell)
    requires InGrid(RiskAreas, c)
    ensures QuestionAt(c).id in AllQuestionIds
    ensures forall k :: 0 <= k < |QuestionAt(c).options| ==>
              QuestionAt(c).options[k].value != "" && 0 <= QuestionAt(c).options[k].riskScore <= MaxRisk
  {
    CatalogFacts();
    assert c.area == 0 || c.area == 1 || c.area == 2;
    assert c.question == 0 || c.question == 1;
  }

  /** A recorded answer is to a catalog question, names a non-empty option value and has an in-range risk score. */
  lemma OfferedFacts(a: UserAnswer)
    requires Offered(a)
    ensures a.questionId in AllQuestionIds && a.answer != "" && 0 <= a.riskScore <= MaxRisk
  {
    var c :| InGrid(RiskAreas, c) && Chosen(QuestionAt(c), a);
    CellFacts(c);
    var o := AnswerOption(a.answer, a.riskScore);
    assert o in QuestionAt(c).options;
  }

  /** Recorded answers satisfy the premise of the score bounds, and number at most the catalog's six questions. */
  lemma RecordedFacts(answers: seq<UserAnswer>)
    requires Recorded(answers)
    ensures ValidAnswers(answers)
    ensures |answers| <= TotalQuestions()
  {
    forall i | 0 <= i < |answers|
      ensures answers[i].questionId in AllQuestionIds && 0 <= answers[i].riskScore <= MaxRisk
    {
      OfferedFacts(answers[i]);
    }
    DistinctWithin(answers, AllQuestionIds);
    assert |AllQuestionIds| <= 6;
  }

  lemma CatalogCells()
    ensures NonEmptyAreas(RiskAreas)
    ensures CountQuestions(RiskAreas) == TotalQuestions() == 6
  {
    CatalogFacts();
  }

  /** The component's state: the cursor and the answers recorded so far. */
  class RiskAssessment {
    var currentAreaIndex: nat
    var currentQuestionIndex: nat
    var userAnswers: seq<UserAnswer>

    /** The cursor is on a catalog question and the answers are ones the wizard records. */
    ghost predicate Valid()
      reads this
    {
      InGrid(RiskAreas, Cursor()) && Recorded(userAnswers)
    }

    function Cursor(): Cell
      reads this
    {
      Cell(currentAreaIndex, currentQuestionIndex)
    }

    /** The initial state: the first question of the first area, nothing answered. */
    constructor()
      ensures Valid()
      ensures Cursor() == Cell(0, 0) && userAnswers == []
    {
      currentAreaIndex := 0;
      currentQuestionIndex := 0;
      userAnswers := [];
      CatalogFacts();
    }

    /** `riskAreas[currentAreaIndex].questions[currentQuestionIndex]`: a question of the current area. */
    function CurrentQuestion(): (r: Question)
      reads this
      requires Valid()
      ensures r in RiskAreas[currentAreaIndex].questions && r.id in AllQuestionIds
    {
      CellFacts(Cursor());
      QuestionAt(Cursor())
    }

    /**
     * The value recorded for the current question, or "" when it has none:
     * the one answer to the current question, which names one of its options.
     */
    function GetCurrentAnswer(): (r: string)
      reads this
      requires Valid()
      ensures r == "" <==> forall i :: 0 <= i < |userAnswers| ==> userAnswers[i].questionId != CurrentQuestion().id
      ensures forall i :: 0 <= i < |userAnswers| && userAnswers[i].questionId == CurrentQuestion().id ==>
                r == userAnswers[i].answer
      ensures r != "" ==> FindOption(CurrentQuestion().options, r).Some?
    {
      var found := FindAnswer(userAnswers, CurrentQuestion().id);
      if found.Some? then
        AnswerOfCurrent(this, found.value);
        found.value.answer
      else ""
    }

    /** The "Próxima" button is enabled when the current question has an answer. */
    predicate CanGoNext()
      reads this
      requires Valid()
    {
      GetCurrentAnswer() != ""
    }

    /** The "Anterior" button is enabled everywhere but at the first question. */
    predicate CanGoPrevious()
      reads this
    {
      !(currentAreaIndex == 0 && currentQuestionIndex == 0)
    }

    /** `(answeredQuestions / totalQuestions) * 100`: the share of the catalog's questions answered, in percent. */
    function Progress(): (r: real)
      reads this
      ensures r * TotalQuestions() as real == 100.0 * |userAnswers| as real
    {
      (|userAnswers| as real / TotalQuestions() as real) * 100.0
    }

    /**
     * `goToNext` as seen from a render whose answer list was `captured`: the
     * cursor moves to the next cell; past the last cell the cursor stays and
     * the assessment completes with the profile of `captured`.
     */
    method GoToNextWith(captured: seq<UserAnswer>) returns (completed: Option<RiskProfile>)
      requires Valid()
      modifies this
      ensures Valid()
      ensures userAnswers == old(userAnswers)
      ensures NextCell(RiskAreas, old(Cursor())).Some? ==>
                Cursor() == NextCell(RiskAreas, old(Cursor())).value && completed == None
      ensures NextCell(RiskAreas, old(Cursor())).Some? ==> CanGoPrevious()
      ensures NextCell(RiskAreas, old(Cursor())).None? ==>
                Cursor() == old(Cursor()) && completed == Some(RiskProfileOf(captured))
    {
      CatalogCells();
      NextCellFacts(RiskAreas, Cursor());
      if currentQuestionIndex < |RiskAreas[currentAreaIndex].questions| - 1 {
        currentQuestionIndex := currentQuestionIndex + 1;
        completed := None;
      } else if currentAreaIndex < |RiskAreas| - 1 {
        currentAreaIndex := currentAreaIndex + 1;
        currentQuestionIndex := 0;
        completed := None;
      } else {
        var riskProfile := CalculateRiskScore(captured);
        completed := Some(riskProfile);
      }
    }

    /** `goToNext` from the "Próxima" button: completion scores the current answer list. */
    method GoToNext() returns (completed: Option<RiskProfile>)
      requires Valid()
      modifies this
      ensures Valid()
      ensures userAnswers == old(userAnswers)
      ensures NextCell(RiskAreas, old(Cursor())).Some? ==>
                Cursor() == NextCell(RiskAreas, old(Cursor())).value && completed == None
      ensures NextCell(RiskAreas, old(Cursor())).None? ==>
                Cursor() == old(Cursor()) && completed == Some(RiskProfileOf(userAnswers))
    {
      completed := GoToNextWith(userAnswers);
    }

    /** `goToPrevious`: back one question, or to the last question of the previous area; nothing at the first. */
    method GoToPrevious()
      requires Valid()
      modifies this
      ensures Valid()
      ensures userAnswers == old(userAnswers)
      ensures Cursor() == PreviousCell(RiskAreas, old(Cursor()))
      ensures old(CanGoPrevious()) <==> Cursor() != old(Cursor())
    {
      CatalogCells();
      PreviousCellFacts(RiskAreas, Cursor());
      ghost var target := PreviousCell(RiskAreas, Cursor());
      if currentQuestionIndex > 0 {
        currentQuestionIndex := currentQuestionIndex - 1;
      } else if currentAreaIndex > 0 {
        currentAreaIndex := currentAreaIndex - 1;
        currentQuestionIndex := |RiskAreas[currentAreaIndex].questions| - 1;
      }
      assert Cursor() == target;
    }

    /**
     * `handleAnswer`: a value that is no option of the current question changes
     * nothing; otherwise the answer, with the option's risk score, replaces any
     * earlier answer to the question, and `goToNext` runs with the answer list
     * of the render that handled the event, the one before this answer.
     */
    method HandleAnswer(optionValue: string) returns (completed: Option<RiskProfile>)
      requires Valid()
      modifies this
      ensures Valid()
      ensures FindOption(old(CurrentQuestion()).options, optionValue).None? ==>
                Cursor() == old(Cursor()) && userAnswers == old(userAnswers) && completed == None
      ensures FindOption(old(CurrentQuestion()).options, optionValue).Some? ==>
                userAnswers == Upsert(old(userAnswers), UserAnswer(old(CurrentQuestion()).id, optionValue,
                                                                    FindOption(old(CurrentQuestion()).options, optionValue).value.riskScore))
      ensures FindOption(old(CurrentQuestion()).options, optionValue).Some? && NextCell(RiskAreas, old(Cursor())).Some? ==>
                Cursor() == NextCell(RiskAreas, old(Cursor())).value && completed == None
      ensures FindOption(old(CurrentQuestion()).options, optionValue).Some? && NextCell(RiskAreas, old(Cursor())).None? ==>
                Cursor() == old(Cursor()) && completed == Some(RiskProfileOf(old(userAnswers)))
    {
      var currentQuestion := CurrentQuestion();
      var selectedOption := FindOption(currentQuestion.options, optionValue);
      if selectedOption.None? {
        return None;
      }
      var newAnswer := UserAnswer(currentQuestion.id, optionValue, selectedOption.value.riskScore);
      var captured := userAnswers;
      RecordAnswer(newAnswer);
      completed := GoToNextWith(captured);
    }

    /**
     * `handleAnswer` as evidently intended: the same update, but completion
     * scores the answer list that includes the answer just given.
     */
    method HandleAnswerFixed(optionValue: string) returns (completed: Option<RiskProfile>)
      requires Valid()
      modifies this
      ensures Valid()
      ensures FindOption(old(CurrentQuestion()).options, optionValue).None? ==>
                Cursor() == old(Cursor()) && userAnswers == old(userAnswers) && completed == None
      ensures FindOption(old(CurrentQuestion()).options, optionValue).Some? ==>
                userAnswers == Upsert(old(userAnswers), UserAnswer(old(CurrentQuestion()).id, optionValue,
                                                                    FindOption(old(CurrentQuestion()).options, optionValue).value.riskScore))
      ensures FindOption(old(CurrentQuestion()).options, optionValue).Some? && NextCell(RiskAreas, old(Cursor())).Some? ==>
                Cursor() == NextCell(RiskAreas, old(Cursor())).value && completed == None
      ensures FindOption(old(CurrentQuestion()).options, optionValue).Some? && NextCell(RiskAreas, old(Cursor())).None? ==>
                Cursor() == old(Cursor()) && completed == Some(RiskProfileOf(userAnswers))
    {
      var currentQuestion := CurrentQuestion();
      var selectedOption := FindOption(currentQuestion.options, optionValue);
      if selectedOption.None? {
        return None;
      }
      var newAnswer := UserAnswer(currentQuestion.id, optionValue, selectedOption.value.riskScore);
      RecordAnswer(newAnswer);
      completed := GoToNextWith(userAnswers);
    }

    /** The state update of `handleAnswer`: the upsert, which keeps the answers recorded ones. */
    method RecordAnswer(newAnswer: UserAnswer)
      requires Valid() && Chosen(CurrentQuestion(), newAnswer)
      modifies this
      ensures Valid()
      ensures Cursor() == old(Cursor())
      ensures userAnswers == Upsert(old(userAnswers), newAnswer)
      ensures GetCurrentAnswer() == newAnswer.answer && CanGoNext()
    {
      ghost var c := Cursor();
      UpsertFacts(userAnswers, newAnswer);
      userAnswers := Upsert(userAnswers, newAnswer);
      assert Offered(newAnswer) by {
        assert InGrid(RiskAreas, c) && Chosen(QuestionAt(c), newAnswer);
      }
      forall i | 0 <= i < |userAnswers|
        ensures Offered(userAnswers[i])
      {
        if i < |userAnswers| - 1 {
          assert userAnswers[i] in Without(old(userAnswers), newAnswer.questionId);
        }
      }
    }
  }

  /** The answer found for the current question is the only one to it, and names one of its options. */
  lemma AnswerOfCurrent(w: RiskAssessment, found: UserAnswer)
    requires w.Valid() && FindAnswer(w.userAnswers, w.CurrentQuestion().id) == Some(found)
    ensures found.answer != "" && FindOption(w.CurrentQuestion().options, found.answer).Some?
    ensures forall i :: 0 <= i < |w.userAnswers| && w.userAnswers[i].questionId == w.CurrentQuestion().id ==>
              w.userAnswers[i] == found
  {
    var j :| 0 <= j < |w.userAnswers| && w.userAnswers[j] == found;
    OfferedFacts(found);
    var c :| InGrid(RiskAreas, c) && Chosen(QuestionAt(c), found);
    CellFacts(c);
    CellIds(c, w.Cursor());
  }

  /** Distinct cells hold questions with distinct ids. */
  lemma CellIds(c: Cell, d: Cell)
    requires InGrid(RiskAreas, c) && InGrid(RiskAreas, d)
    ensures QuestionAt(c).id == QuestionAt(d).id ==> c == d
  {
    CatalogFacts();
    assert c.area == 0 || c.area == 1 || c.area == 2;
    assert c.question == 0 || c.question == 1;
    assert d.area == 0 || d.area == 1 || d.area == 2;
    assert d.question == 0 || d.question == 1;
  }

  /** Progress stays within 0..100 percent, and reaches 100 exactly when every question is answered. */
  lemma ProgressBounds(w: RiskAssessment)
    requires w.Valid()
    ensures 0.0 <= w.Progress() <= 100.0
    ensures w.Progress() == 100.0 <==> |w.userAnswers| == TotalQuestions()
  {
    RecordedFacts(w.userAnswers);
  }

  /**
   * What `HandleAnswer` completes with loses the final answer: when the last
   * question (`priv-2`) is answered for the first time with a risk above 3,
   * the profile of the earlier answers has no `rec-phishing`, although the
   * profile of the answers including the final one has it.
   */
  lemma FinalAnswerIgnored(captured: seq<UserAnswer>, a: UserAnswer)
    requires FindAnswer(captured, "priv-2").None?
    requires a.questionId == "priv-2" && a.riskScore > 3
    ensures "rec-phishing" !in Ids(RiskProfileOf(captured).recommendations)
    ensures "rec-phishing" in Ids(RiskProfileOf(Upsert(captured, a)).recommendations)
  {
    RecommendationRules(captured);
    RecommendationRules(Upsert(captured, a));
    UpsertFacts(captured, a);
    assert Rules[5] == Rule("rec-phishing", "privacy", "priv-2", 3, 7, Low);
  }

  /**
   * What `HandleAnswerFixed` completes with counts the final answer: a rule on
   * the question just answered fires exactly when that answer's risk is above
   * the rule's threshold, whatever the earlier answers were.
   */
  lemma FinalAnswerCounted(captured: seq<UserAnswer>, a: UserAnswer, i: nat)
    requires i < |Rules| && Rules[i].questionId == a.questionId
    ensures Rules[i].id in Ids(RiskProfileOf(Upsert(captured, a)).recommendations) <==> a.riskScore > Rules[i].fireAbove
    ensures a.riskScore > Rules[i].fireAbove ==>
              Recommendation(Rules[i].id, if a.riskScore > Rules[i].highAbove then High else Rules[i].otherwise)
                in RiskProfileOf(Upsert(captured, a)).recommendations
  {
    RecommendationRules(Upsert(captured, a));
    UpsertFacts(captured, a);
  }
}
