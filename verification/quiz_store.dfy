/** The client-side quiz selection store: a six-field state and the
    whole-record transitions that replace it. Choosing a subject invalidates
    the chosen category and the current quiz; choosing a category invalidates
    the current quiz; `reset` restores the initial state. The store's
    subscription mechanism is not modelled: each transition is a pure
    function from state to state. */
module QuizStore {
  import opened Wrappers
  import opened Types

  datatype QuizState = QuizState(
    currentQuiz: Option<Quiz>,
    currentAttempt: Option<QuizAttempt>,
    selectedSubject: Option<string>,
    selectedCategory: Option<string>,
    loading: bool,
    error: Option<string>)

  /** The state the store starts in and `reset` returns to. */
  const Initial: QuizState := QuizState(None, None, None, None, false, None)

  /** The state holds no reference and no error and is not loading. */
  predicate IsBlank(s: QuizState) {
    && s.currentQuiz.None? && s.currentAttempt.None?
    && s.selectedSubject.None? && s.selectedCategory.None?
    && !s.loading && s.error.None?
  }

  lemma InitialIsBlank()
    ensures IsBlank(Initial)
    ensures forall s :: IsBlank(s) ==> s == Initial
  {
  }

  function SetCurrentQuiz(s: QuizState, quiz: Quiz): (s': QuizState)
    ensures s'.currentQuiz == Some(quiz)
    ensures s'.currentAttempt == s.currentAttempt
    ensures s'.selectedSubject == s.selectedSubject && s'.selectedCategory == s.selectedCategory
    ensures s'.loading == s.loading && s'.error == s.error
  {
    s.(currentQuiz := Some(quiz))
  }

  function SetCurrentAttempt(s: QuizState, attempt: QuizAttempt): (s': QuizState)
    ensures s'.currentAttempt == Some(attempt)
    ensures s'.currentQuiz == s.currentQuiz
    ensures s'.selectedSubject == s.selectedSubject && s'.selectedCategory == s.selectedCategory
    ensures s'.loading == s.loading && s'.error == s.error
  {
    s.(currentAttempt := Some(attempt))
  }

  /** A new subject (or none) makes the chosen category and quiz stale. */
  function SetSelectedSubject(s: QuizState, subjectId: Option<string>): (s': QuizState)
    ensures s'.selectedSubject == subjectId
    ensures s'.selectedCategory.None? && s'.currentQuiz.None?
    ensures s'.currentAttempt == s.currentAttempt && s'.loading == s.loading && s'.error == s.error
  {
    s.(selectedSubject := subjectId, selectedCategory := None, currentQuiz := None)
  }

  /** A new category (or none) makes the current quiz stale. */
  function SetSelectedCategory(s: QuizState, categoryId: Option<string>): (s': QuizState)
    ensures s'.selectedCategory == categoryId
    ensures s'.currentQuiz.None?
    ensures s'.selectedSubject == s.selectedSubject
    ensures s'.currentAttempt == s.currentAttempt && s'.loading == s.loading && s'.error == s.error
  {
    s.(selectedCategory := categoryId, currentQuiz := None)
  }

  function SetLoading(s: QuizState, isLoading: bool): (s': QuizState)
    ensures s'.loading == isLoading
    ensures s'.currentQuiz == s.currentQuiz && s'.currentAttempt == s.currentAttempt
    ensures s'.selectedSubject == s.selectedSubject && s'.selectedCategory == s.selectedCategory
    ensures s'.error == s.error
  {
    s.(loading := isLoading)
  }

  /** Setting an error keeps every selection, the quiz and the attempt, so
      stale data can stay on screen beside the error. */
  function SetError(s: QuizState, error: Option<string>): (s': QuizState)
    ensures s'.error == error
    ensures s'.currentQuiz == s.currentQuiz && s'.currentAttempt == s.currentAttempt
    ensures s'.selectedSubject == s.selectedSubject && s'.selectedCategory == s.selectedCategory
    ensures s'.loading == s.loading
  {
    s.(error := error)
  }

  function Reset(s: QuizState): (s': QuizState)
    ensures IsBlank(s')
  {
    Initial
  }

  // ---------------------------------------------------------------------
  // Algebraic laws of the transitions

  /** `reset` is idempotent and forgets everything before it. */
  lemma ResetIdempotent(s: QuizState, t: QuizState)
    ensures Reset(Reset(s)) == Reset(s)
    ensures Reset(s) == Reset(t)
  {
  }

  /** Choosing a subject and then a category keeps the subject. */
  lemma SubjectThenCategoryKeepsSubject(s: QuizState, subjectId: Option<string>, categoryId: Option<string>)
    ensures var s' := SetSelectedCategory(SetSelectedSubject(s, subjectId), categoryId);
      s'.selectedSubject == subjectId && s'.selectedCategory == categoryId && s'.currentQuiz.None?
  {
  }

  /** A subject choice wipes out an earlier category or quiz choice: the
      earlier call leaves no trace. */
  lemma SubjectOverridesDownstream(s: QuizState, subjectId: Option<string>, categoryId: Option<string>, quiz: Quiz)
    ensures SetSelectedSubject(SetSelectedCategory(s, categoryId), subjectId) == SetSelectedSubject(s, subjectId)
    ensures SetSelectedSubject(SetCurrentQuiz(s, quiz), subjectId) == SetSelectedSubject(s, subjectId)
    ensures SetSelectedCategory(SetCurrentQuiz(s, quiz), categoryId) == SetSelectedCategory(s, categoryId)
  {
  }

  /** Choosing the same subject twice is the same as choosing it once, and
      of two subject choices the later one wins. */
  lemma SubjectLastChoiceWins(s: QuizState, first: Option<string>, second: Option<string>)
    ensures SetSelectedSubject(SetSelectedSubject(s, first), second) == SetSelectedSubject(s, second)
  {
  }

  /** The loading and error flags are independent of the selection: setting
      them commutes with every selection transition. */
  lemma FlagsCommuteWithSelection(s: QuizState, isLoading: bool, error: Option<string>, subjectId: Option<string>, categoryId: Option<string>)
    ensures SetLoading(SetSelectedSubject(s, subjectId), isLoading) == SetSelectedSubject(SetLoading(s, isLoading), subjectId)
    ensures SetError(SetSelectedSubject(s, subjectId), error) == SetSelectedSubject(SetError(s, error), subjectId)
    ensures SetLoading(SetSelectedCategory(s, categoryId), isLoading) == SetSelectedCategory(SetLoading(s, isLoading), categoryId)
    ensures SetError(SetSelectedCategory(s, categoryId), error) == SetSelectedCategory(SetError(s, error), categoryId)
  {
  }

  // ---------------------------------------------------------------------
  // Runs of transitions

  /** One call on the store. */
  datatype Action =
    | ChooseQuiz(quiz: Quiz)
    | ChooseAttempt(attempt: QuizAttempt)
    | ChooseSubject(subjectId: Option<string>)
    | ChooseCategory(categoryId: Option<string>)
    | Loading(isLoading: bool)
    | Failure(error: Option<string>)
    | ResetAll

  function Apply(s: QuizState, a: Action): QuizState {
    match a
    case ChooseQuiz(q) => SetCurrentQuiz(s, q)
    case ChooseAttempt(at) => SetCurrentAttempt(s, at)
    case ChooseSubject(x) => SetSelectedSubject(s, x)
    case ChooseCategory(c) => SetSelectedCategory(s, c)
    case Loading(b) => SetLoading(s, b)
    case Failure(e) => SetError(s, e)
    case ResetAll => Reset(s)
  }

  /** The state after the calls `acts`, in order, starting from `s`. */
  function Run(s: QuizState, acts: seq<Action>): QuizState
    decreases |acts|
  {
    if acts == [] then s else Run(Apply(s, acts[0]), acts[1..])
  }

  /** The value a field holds after `acts`: the value written by the last
      call that writes the field (`write` says what a call writes to it, if
      anything), or `initial` when no call writes it. */
  function LastWrite<T>(acts: seq<Action>, write: Action -> Option<T>, initial: T): T
    decreases |acts|
  {
    if acts == [] then initial
    else
      match write(acts[|acts| - 1])
      case Some(v) => v
      case None => LastWrite(acts[..|acts| - 1], write, initial)
  }

  /** What each call writes to each field. */
  function QuizWrite(a: Action): Option<Option<Quiz>> {
    match a
    case ChooseQuiz(q) => Some(Some(q))
    case ChooseSubject(_) => Some(None)
    case ChooseCategory(_) => Some(None)
    case ResetAll => Some(None)
    case _ => None
  }

  function AttemptWrite(a: Action): Option<Option<QuizAttempt>> {
    match a
    case ChooseAttempt(at) => Some(Some(at))
    case ResetAll => Some(None)
    case _ => None
  }

  function SubjectWrite(a: Action): Option<Option<string>> {
    match a
    case ChooseSubject(x) => Some(x)
    case ResetAll => Some(None)
    case _ => None
  }

  function CategoryWrite(a: Action): Option<Option<string>> {
    match a
    case ChooseCategory(c) => Some(c)
    case ChooseSubject(_) => Some(None)
    case ResetAll => Some(None)
    case _ => None
  }

  function LoadingWrite(a: Action): Option<bool> {
    match a
    case Loading(b) => Some(b)
    case ResetAll => Some(false)
    case _ => None
  }

  function ErrorWrite(a: Action): Option<Option<string>> {
    match a
    case Failure(e) => Some(e)
    case ResetAll => Some(None)
    case _ => None
  }

  /** The state after a run of calls, field by field, from the starting state `s`. */
  function Expected(s: QuizState, acts: seq<Action>): QuizState {
    QuizState(
      LastWrite(acts, QuizWrite, s.currentQuiz),
      LastWrite(acts, AttemptWrite, s.currentAttempt),
      LastWrite(acts, SubjectWrite, s.selectedSubject),
      LastWrite(acts, CategoryWrite, s.selectedCategory),
      LastWrite(acts, LoadingWrite, s.loading),
      LastWrite(acts, ErrorWrite, s.error))
  }

  lemma LastWriteOfOne<T>(a: Action, write: Action -> Option<T>, initial: T)
    ensures LastWrite([a], write, initial) == write(a).GetOr(initial)
  {
    assert [a][..0] == [];
  }

  /** One call changes exactly the fields it writes. */
  lemma ApplyWritesExactly(s: QuizState, a: Action)
    ensures Apply(s, a) == Expected(s, [a])
  {
    LastWriteOfOne(a, QuizWrite, s.currentQuiz);
    LastWriteOfOne(a, AttemptWrite, s.currentAttempt);
    LastWriteOfOne(a, SubjectWrite, s.selectedSubject);
    LastWriteOfOne(a, CategoryWrite, s.selectedCategory);
    LastWriteOfOne(a, LoadingWrite, s.loading);
    LastWriteOfOne(a, ErrorWrite, s.error);
  }

  /** A run ends with its last call applied to the state before it. */
  lemma {:induction false} RunSnoc(s: QuizState, acts: seq<Action>, a: Action)
    ensures Run(s, acts + [a]) == Apply(Run(s, acts), a)
    decreases |acts|
  {
    if acts == [] {
      assert [a][1..] == [];
    } else {
      assert (acts + [a])[1..] == acts[1..] + [a];
      RunSnoc(Apply(s, acts[0]), acts[1..], a);
    }
  }

  /** Every field of the store, after any run of calls, holds what the last
      call writing that field wrote, or its starting value if none did. */
  lemma {:induction false} RunIsLastWrites(s: QuizState, acts: seq<Action>)
    ensures Run(s, acts) == Expected(s, acts)
    decreases |acts|
  {
    if acts != [] {
      var init := acts[..|acts| - 1];
      var a := acts[|acts| - 1];
      assert acts == init + [a];
      RunIsLastWrites(s, init);
      RunSnoc(s, init, a);
      ApplyWritesExactly(Run(s, init), a);
    }
  }

  /** From the initial state, the selected subject after any run is the one
      chosen by the last subject choice since the last reset (or none). */
  lemma SubjectAfterRun(acts: seq<Action>)
    ensures Run(Initial, acts).selectedSubject == LastWrite(acts, SubjectWrite, None)
  {
    RunIsLastWrites(Initial, acts);
  }
}
