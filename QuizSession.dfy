/**
 * The quiz session: four session fields (`generated_mcqs`, `current_mcq_index`, `mcq_score`,
 * `mcq_show_feedback`) that the quiz tab updates when the user creates a quiz, submits an
 * answer, moves to the next question or restarts. The steps are first given as functions on a
 * `QuizState` value, with the invariant they keep; the `QuizSession` class then performs them
 * on its fields in place.
 */
module QuizSession {
  import opened Wrappers
  import opened McqParser

  /** The four session fields. */
  datatype QuizState = QuizState(mcqs: seq<Mcq>, index: int, score: int, showFeedback: bool)

  /** The values the session starts with: `[]`, `0`, `0`, `False`. */
  const Initial := QuizState([], 0, 0, false)

  /**
   * What the quiz area shows: nothing without questions; question `number` of `total`; or,
   * once the index has run past the last question, the final score. The source itself has no
   * such state: rendering indexes `generated_mcqs[current_mcq_index]` unchecked and would
   * raise `IndexError` there.
   */
  datatype View = NoQuiz | Showing(question: Mcq, number: nat, total: nat) | Completed(score: int, total: nat)

  function ViewOf(s: QuizState): View
  {
    if s.mcqs == [] then NoQuiz
    else if 0 <= s.index < |s.mcqs| then Showing(s.mcqs[s.index], s.index + 1, |s.mcqs|)
    else Completed(s.score, |s.mcqs|)
  }

  /** Every stored question's answer, when it has one, is among its options. */
  predicate AnswersAmongOptions(mcqs: seq<Mcq>)
  {
    forall i :: 0 <= i < |mcqs| && mcqs[i].answer.Some? ==> mcqs[i].answer.value in mcqs[i].options
  }

  /**
   * What holds of the session between any two steps: the index never passes the end of a
   * non-empty quiz, feedback is only shown for a question that exists, and the score never
   * exceeds the number of questions answered so far (the current one counting once its
   * feedback is shown).
   */
  predicate Inv(s: QuizState)
  {
    && 0 <= s.index && 0 <= s.score
    && s.score <= s.index + (if s.showFeedback then 1 else 0)
    && (s.mcqs != [] ==> s.index <= |s.mcqs|)
    && (s.mcqs != [] && s.showFeedback ==> s.index < |s.mcqs|)
    && AnswersAmongOptions(s.mcqs)
  }

  /** The "Submit Answer" button is offered: a question is shown and its feedback is not. */
  predicate CanSubmit(s: QuizState)
  {
    ViewOf(s).Showing? && !s.showFeedback
  }

  /** The "Next" button is offered: a question is shown together with its feedback. */
  predicate CanAdvance(s: QuizState)
  {
    ViewOf(s).Showing? && s.showFeedback
  }

  /**
   * What `st.radio` over the question's options can hand back: one of the options, or
   * `None` when there are no options at all.
   */
  predicate ChoiceOffered(q: Mcq, choice: Option<string>)
  {
    if q.options == [] then choice == None else choice.Some? && choice.value in q.options
  }

  /** "Create Quiz": a non-empty parse replaces the quiz and starts it; otherwise nothing changes. */
  function Generated(s: QuizState, rawMcqs: string): QuizState
  {
    match McqsOf(rawMcqs)
    case Ok(qs) => if qs == [] then s else QuizState(qs, 0, 0, false)
    case Err(_) => s
  }

  /** "Submit Answer": feedback on, and one point when the choice equals the answer by value. */
  function Submitted(s: QuizState, choice: Option<string>): QuizState
    requires CanSubmit(s)
  {
    var q := s.mcqs[s.index];
    QuizState(s.mcqs, s.index, if choice == q.answer then s.score + 1 else s.score, true)
  }

  /** "Next": on to the following question, feedback off. */
  function Advanced(s: QuizState): QuizState
    requires CanAdvance(s)
  {
    QuizState(s.mcqs, s.index + 1, s.score, false)
  }

  /** "Restart Quiz" in the quiz tab: only the question list is cleared. */
  function RestartedQuestionsOnly(s: QuizState): QuizState
  {
    s.(mcqs := [])
  }

  /** "Restart Quiz" in the single-file app: all four fields go back to their first values. */
  function RestartedAll(s: QuizState): QuizState
  {
    Initial
  }

  /** The session starts valid, with no quiz shown and neither "Submit Answer" nor "Next" offered. */
  lemma InitialState()
    ensures Inv(Initial) && ViewOf(Initial) == NoQuiz
    ensures !CanSubmit(Initial) && !CanAdvance(Initial)
  {
  }

  /**
   * "Create Quiz" keeps the invariant. A reply that parses to records starts the quiz on its
   * first question with score 0 and no feedback; an empty parse or a parse that raises leaves
   * all four fields as they were.
   */
  lemma GenerateKeepsInvariant(s: QuizState, rawMcqs: string)
    requires Inv(s)
    ensures Inv(Generated(s, rawMcqs))
    ensures match McqsOf(rawMcqs)
      case Ok(qs) =>
        if qs == [] then Generated(s, rawMcqs) == s
        else (ViewOf(Generated(s, rawMcqs)) == Showing(qs[0], 1, |qs|)
              && CanSubmit(Generated(s, rawMcqs)) && Generated(s, rawMcqs).score == 0)
      case Err(_) => Generated(s, rawMcqs) == s
  {
    if McqsOf(rawMcqs).Ok? {
      var qs := McqsOf(rawMcqs).value;
      McqRecordsWellFormed(rawMcqs);
      assert forall i :: 0 <= i < |qs| ==> qs[i] in qs;
    }
  }

  /**
   * "Submit Answer" keeps the invariant, adds exactly one point for a choice equal to the
   * answer and none otherwise, leaves the question and the index alone. Afterwards "Submit
   * Answer" is no longer offered and "Next" is: a question cannot be scored twice.
   */
  lemma SubmitKeepsInvariant(s: QuizState, choice: Option<string>)
    requires Inv(s) && CanSubmit(s)
    ensures var t := Submitted(s, choice);
      && Inv(t)
      && t.score == s.score + (if choice == s.mcqs[s.index].answer then 1 else 0)
      && t.index == s.index && ViewOf(t) == ViewOf(s)
      && !CanSubmit(t) && CanAdvance(t)
  {
  }

  /**
   * "Next" keeps the invariant and the score, and shows the following question, or the final
   * score once the last question has been passed.
   */
  lemma NextKeepsInvariant(s: QuizState)
    requires Inv(s) && CanAdvance(s)
    ensures var t := Advanced(s);
      && Inv(t) && t.score == s.score && t.index == s.index + 1 && !t.showFeedback
      && (s.index + 1 < |s.mcqs| ==> ViewOf(t) == Showing(s.mcqs[s.index + 1], s.index + 2, |s.mcqs|) && CanSubmit(t))
      && (s.index + 1 == |s.mcqs| ==> ViewOf(t) == Completed(s.score, |s.mcqs|) && !CanSubmit(t) && !CanAdvance(t))
  {
  }

  /** Both restarts keep the invariant and leave no quiz on screen. */
  lemma RestartsKeepInvariant(s: QuizState)
    requires Inv(s)
    ensures Inv(RestartedQuestionsOnly(s)) && ViewOf(RestartedQuestionsOnly(s)) == NoQuiz
    ensures Inv(RestartedAll(s)) && ViewOf(RestartedAll(s)) == NoQuiz
    ensures RestartedQuestionsOnly(s) == RestartedAll(s) <==> s.index == 0 && s.score == 0 && !s.showFeedback
  {
  }

  /** Once the quiz is complete, the score shown is between 0 and the number of questions. */
  lemma CompletedScoreWithinTotal(s: QuizState)
    requires Inv(s) && ViewOf(s).Completed?
    ensures 0 <= ViewOf(s).score <= ViewOf(s).total
    ensures !s.showFeedback && s.index == |s.mcqs|
  {
  }

  /**
   * A question with an answer can be answered correctly: the answer is one of the choices
   * offered, and choosing it scores. A question without an `Answer:` line scores for no choice
   * when it has options, and for the only choice, `None`, when it has none.
   */
  lemma CorrectChoiceScores(s: QuizState)
    requires Inv(s) && CanSubmit(s)
    ensures var q := s.mcqs[s.index];
      && (q.answer.Some? ==> ChoiceOffered(q, q.answer) && Submitted(s, q.answer).score == s.score + 1)
      && (q.answer == None && q.options != [] ==>
            forall c :: ChoiceOffered(q, c) ==> Submitted(s, c).score == s.score)
      && (q.answer == None && q.options == [] ==>
            forall c :: ChoiceOffered(q, c) ==> Submitted(s, c).score == s.score + 1)
  {
    var q := s.mcqs[s.index];
    if q.answer.Some? {
      assert q.answer.value in q.options;
    }
  }

  /** One user action on the quiz area. */
  datatype Action =
    | CreateQuiz(rawMcqs: string)
    | SubmitAnswer(choice: Option<string>)
    | NextQuestion
    | RestartQuestionsOnly
    | RestartAll

  /** The action is on offer in state `s` (a choice must be one `st.radio` can return). */
  predicate Enabled(s: QuizState, a: Action)
  {
    match a
    case SubmitAnswer(choice) => CanSubmit(s) && ChoiceOffered(s.mcqs[s.index], choice)
    case NextQuestion => CanAdvance(s)
    case _ => true
  }

  function Step(s: QuizState, a: Action): QuizState
    requires Enabled(s, a)
  {
    match a
    case CreateQuiz(raw) => Generated(s, raw)
    case SubmitAnswer(choice) => Submitted(s, choice)
    case NextQuestion => Advanced(s)
    case RestartQuestionsOnly => RestartedQuestionsOnly(s)
    case RestartAll => RestartedAll(s)
  }

  /** A session driven by a sequence of clicks; a click on a button that is not offered does nothing. */
  function Run(s: QuizState, actions: seq<Action>): QuizState
    decreases |actions|
  {
    if actions == [] then s
    else Run(if Enabled(s, actions[0]) then Step(s, actions[0]) else s, actions[1..])
  }

  lemma StepKeepsInvariant(s: QuizState, a: Action)
    requires Inv(s) && Enabled(s, a)
    ensures Inv(Step(s, a))
  {
    match a
    case CreateQuiz(raw) => GenerateKeepsInvariant(s, raw);
    case SubmitAnswer(choice) => SubmitKeepsInvariant(s, choice);
    case NextQuestion => NextKeepsInvariant(s);
    case RestartQuestionsOnly => RestartsKeepInvariant(s);
    case RestartAll => RestartsKeepInvariant(s);
  }

  /** Every session reachable from a valid one is valid, so any completed quiz shows a score within its total. */
  lemma {:induction false} RunKeepsInvariant(s: QuizState, actions: seq<Action>)
    requires Inv(s)
    ensures Inv(Run(s, actions))
    ensures ViewOf(Run(s, actions)).Completed? ==> 0 <= ViewOf(Run(s, actions)).score <= ViewOf(Run(s, actions)).total
    decreases |actions|
  {
    if actions != [] {
      var t := if Enabled(s, actions[0]) then Step(s, actions[0]) else s;
      if Enabled(s, actions[0]) {
        StepKeepsInvariant(s, actions[0]);
      }
      RunKeepsInvariant(t, actions[1..]);
    } else if ViewOf(s).Completed? {
      CompletedScoreWithinTotal(s);
    }
  }

  /** Two sessions no user can tell apart: the same, or both without questions. */
  predicate LookAlike(a: QuizState, b: QuizState)
  {
    a == b || (a.mcqs == [] && b.mcqs == [])
  }

  lemma LookAlikeStep(a: QuizState, b: QuizState, act: Action)
    requires LookAlike(a, b)
    ensures ViewOf(a) == ViewOf(b) && (Enabled(a, act) <==> Enabled(b, act))
    ensures Enabled(a, act) ==> LookAlike(Step(a, act), Step(b, act))
  {
  }

  /**
   * The quiz tab's Restart leaves the index, score and feedback behind, the single-file app's
   * Restart resets them; no sequence of later clicks shows a difference, because no button reads
   * them until "Create Quiz" overwrites all four.
   */
  lemma {:induction false} RestartsLookAlike(s: QuizState, actions: seq<Action>)
    ensures ViewOf(Run(RestartedQuestionsOnly(s), actions)) == ViewOf(Run(RestartedAll(s), actions))
  {
    RunLookAlike(RestartedQuestionsOnly(s), RestartedAll(s), actions);
  }

  lemma {:induction false} RunLookAlike(a: QuizState, b: QuizState, actions: seq<Action>)
    requires LookAlike(a, b)
    ensures ViewOf(Run(a, actions)) == ViewOf(Run(b, actions))
    decreases |actions|
  {
    LookAlikeStep(a, b, if actions == [] then NextQuestion else actions[0]);
    if actions != [] {
      var act := actions[0];
      var a' := if Enabled(a, act) then Step(a, act) else a;
      var b' := if Enabled(b, act) then Step(b, act) else b;
      RunLookAlike(a', b', actions[1..]);
    }
  }

  /** The outcome of "Create Quiz". */
  datatype GenerateOutcome =
    | Started(count: nat)           // the quiz was replaced and starts at its first question
    | NothingParsed                 // "Failed to parse MCQs."
    | ParseRaised(error: ParseError) // `parse_mcq_text` raised; the exception ends the run

  /** The quiz area's session fields, updated in place by its buttons. */
  class QuizSession {
    var generatedMcqs: seq<Mcq>
    var currentMcqIndex: int
    var mcqScore: int
    var mcqShowFeedback: bool

    function State(): QuizState
      reads this
    {
      QuizState(generatedMcqs, currentMcqIndex, mcqScore, mcqShowFeedback)
    }

    ghost predicate Valid()
      reads this
    {
      Inv(State())
    }

    /** A fresh session with the initial values. */
    constructor ()
      ensures State() == Initial && Valid()
    {
      generatedMcqs := [];
      currentMcqIndex := 0;
      mcqScore := 0;
      mcqShowFeedback := false;
    }

    /** "Create Quiz" with the model's reply `rawMcqs`. */
    method Generate(rawMcqs: string) returns (outcome: GenerateOutcome)
      requires Valid()
      modifies this
      ensures Valid() && State() == Generated(old(State()), rawMcqs)
      ensures outcome == match McqsOf(rawMcqs)
        case Ok(qs) => if qs == [] then NothingParsed else Started(|qs|)
        case Err(e) => ParseRaised(e)
    {
      GenerateKeepsInvariant(State(), rawMcqs);
      var questions := ParseMcqText(rawMcqs);
      match questions
      case Err(e) =>
        outcome := ParseRaised(e);
      case Ok(qs) =>
        if qs == [] {
          outcome := NothingParsed;
        } else {
          generatedMcqs := qs;
          currentMcqIndex := 0;
          mcqScore := 0;
          mcqShowFeedback := false;
          outcome := Started(|qs|);
        }
    }

    /** "Submit Answer" with the option picked in the radio group; reports whether it was right. */
    method SubmitAnswer(choice: Option<string>) returns (correct: bool)
      requires Valid() && CanSubmit(State()) && ChoiceOffered(State().mcqs[State().index], choice)
      modifies this
      ensures Valid() && State() == Submitted(old(State()), choice)
      ensures correct <==> choice == old(generatedMcqs[currentMcqIndex]).answer
    {
      SubmitKeepsInvariant(State(), choice);
      mcqShowFeedback := true;
      correct := choice == generatedMcqs[currentMcqIndex].answer;
      if correct {
        mcqScore := mcqScore + 1;
      }
    }

    /** "Next": reports whether the quiz is now complete. */
    method NextQuestion() returns (complete: bool)
      requires Valid() && CanAdvance(State())
      modifies this
      ensures Valid() && State() == Advanced(old(State()))
      ensures complete <==> ViewOf(State()).Completed?
    {
      NextKeepsInvariant(State());
      currentMcqIndex := currentMcqIndex + 1;
      mcqShowFeedback := false;
      complete := currentMcqIndex >= |generatedMcqs|;
    }

    /** "Restart Quiz" as the quiz tab does it: the question list only. */
    method RestartQuestionsOnly()
      requires Valid()
      modifies this
      ensures Valid() && State() == RestartedQuestionsOnly(old(State()))
    {
      RestartsKeepInvariant(State());
      generatedMcqs := [];
    }

    /** "Restart Quiz" as the single-file app does it: all four fields. */
    method RestartAll()
      requires Valid()
      modifies this
      ensures Valid() && State() == RestartedAll(old(State()))
    {
      generatedMcqs := [];
      currentMcqIndex := 0;
      mcqScore := 0;
      mcqShowFeedback := false;
    }
  }
}
