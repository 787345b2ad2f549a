/** The record shapes the application exchanges with the store (choices,
    questions, quizzes, quiz attempts), their plain-object form, and the two
    runtime type guards `isQuiz` and `isQuizAttempt`. */
module Types {
  import opened Wrappers
  import opened Js

  /** One answer option of a question. */
  datatype Choice = Choice(
    id: string,
    content: string,
    isCorrect: bool,
    explanation: Option<string>)

  /** A question together with its choices. Timestamps are abstract clock values. */
  datatype Question = Question(
    id: string,
    content: string,
    imageUrl: Option<string>,
    explanation: Option<string>,
    choices: seq<Choice>,
    createdAt: nat,
    updatedAt: Option<nat>,
    isActive: bool)

  /** A quiz row joined with its category row and its ordered questions. The
      other columns of the quizzes and categories tables are not visible to
      this model, so the category is kept as an untyped value. */
  datatype Quiz = Quiz(
    id: string,
    title: string,
    category: Value,
    questions: seq<Question>)

  /** One user's play-through of one quiz. `completedAt` is absent while the
      attempt is active; `updatedAt` is the column every update rewrites. */
  datatype QuizAttempt = QuizAttempt(
    id: string,
    userId: string,
    quizId: string,
    startedAt: nat,
    completedAt: Option<nat>,
    lastAnsweredQuestionId: Option<string>,
    score: int,
    updatedAt: Option<nat>)

  function OptStr(o: Option<string>): Value {
    match o
    case Some(s) => Str(s)
    case None => Null
  }

  function OptNum(o: Option<nat>): Value {
    match o
    case Some(n) => Num(n)
    case None => Null
  }

  function ChoiceToJs(c: Choice): Value {
    Obj(map[
      "id" := Str(c.id),
      "content" := Str(c.content),
      "is_correct" := Bool(c.isCorrect),
      "explanation" := OptStr(c.explanation)])
  }

  function QuestionToJs(q: Question): Value {
    Obj(map[
      "id" := Str(q.id),
      "content" := Str(q.content),
      "image_url" := OptStr(q.imageUrl),
      "explanation" := OptStr(q.explanation),
      "choices" := Arr(seq(|q.choices|, i requires 0 <= i < |q.choices| => ChoiceToJs(q.choices[i]))),
      "created_at" := Num(q.createdAt),
      "updated_at" := OptNum(q.updatedAt),
      "is_active" := Bool(q.isActive)])
  }

  /** The plain object a quiz arrives as, under the column names of the store. */
  function QuizToJs(q: Quiz): (v: Value)
    ensures v.Obj? && v.fields.Keys == {"id", "title", "category", "questions"}
  {
    Obj(map[
      "id" := Str(q.id),
      "title" := Str(q.title),
      "category" := q.category,
      "questions" := Arr(seq(|q.questions|, i requires 0 <= i < |q.questions| => QuestionToJs(q.questions[i])))])
  }

  /** The plain object an attempt row arrives as, under the column names of the store. */
  function QuizAttemptToJs(a: QuizAttempt): (v: Value)
    ensures v.Obj?
    ensures v.fields.Keys == {"id", "user_id", "quiz_id", "started_at", "completed_at",
                              "last_answered_question_id", "score", "updated_at"}
  {
    Obj(map[
      "id" := Str(a.id),
      "user_id" := Str(a.userId),
      "quiz_id" := Str(a.quizId),
      "started_at" := Num(a.startedAt),
      "completed_at" := OptNum(a.completedAt),
      "last_answered_question_id" := OptStr(a.lastAnsweredQuestionId),
      "score" := Num(a.score),
      "updated_at" := OptNum(a.updatedAt)])
  }

  /** The `isQuiz` guard: an object, not null, carrying `id`, `title` and
      `category` (of any type) and whose `questions` property is an array. */
  predicate IsQuiz(data: Value)
    ensures IsQuiz(data) ==> data.Obj? && "questions" in data.fields && data.fields["questions"].Arr?
  {
    && TypeOf(data) == "object"
    && data != Null
    && HasProperty(data, "id")
    && HasProperty(data, "title")
    && HasProperty(data, "category")
    && IsArray(Get(data, "questions"))
  }

  /** The `isQuizAttempt` guard: an object, not null, carrying `id`, `user_id`
      and `quiz_id`; nothing is checked about their types or about any other key. */
  predicate IsQuizAttempt(data: Value)
    ensures IsQuizAttempt(data) ==> data.Obj? && "id" in data.fields && "user_id" in data.fields && "quiz_id" in data.fields
  {
    && TypeOf(data) == "object"
    && data != Null
    && HasProperty(data, "id")
    && HasProperty(data, "user_id")
    && HasProperty(data, "quiz_id")
  }

  /** `null` is never a quiz, although `typeof null` is "object". */
  lemma IsQuizRejectsNull()
    ensures !IsQuiz(Null)
    ensures !IsQuizAttempt(Null)
  {
  }

  /** Primitive values (and `undefined`) are never accepted by either guard. */
  lemma GuardsRejectPrimitives(v: Value)
    requires v.Undefined? || v.Bool? || v.Num? || v.Str?
    ensures !IsQuiz(v)
    ensures !IsQuizAttempt(v)
  {
  }

  /** Arrays pass the `typeof` test but never carry the required keys. */
  lemma GuardsRejectArrays(elems: seq<Value>)
    ensures !IsQuiz(Arr(elems))
    ensures !IsQuizAttempt(Arr(elems))
  {
    NamedKeyNotOnArray(elems, "id");
  }

  /** The exact acceptance condition of `isQuiz`, both directions. */
  lemma IsQuizExactly(v: Value)
    ensures IsQuiz(v) <==>
      && v.Obj?
      && "id" in v.fields && "title" in v.fields && "category" in v.fields
      && "questions" in v.fields && v.fields["questions"].Arr?
  {
    if v.Arr? {
      GuardsRejectArrays(v.elems);
    }
  }

  /** Only `questions` is type-checked: any values under `id`, `title` and
      `category` leave an accepted object accepted, and an object whose
      `questions` is not an array is rejected whatever else it holds. */
  lemma IsQuizIgnoresFieldTypes(fields: map<string, Value>, id: Value, title: Value, category: Value)
    ensures IsQuiz(Obj(fields)) ==> IsQuiz(Obj(fields["id" := id]["title" := title]["category" := category]))
    ensures "questions" in fields && !fields["questions"].Arr? ==> !IsQuiz(Obj(fields))
  {
  }

  /** Every quiz, once in plain-object form, passes `isQuiz`. */
  lemma IsQuizAcceptsEveryQuiz(q: Quiz)
    ensures IsQuiz(QuizToJs(q))
  {
  }

  /** The exact acceptance condition of `isQuizAttempt`, both directions. */
  lemma IsQuizAttemptExactly(v: Value)
    ensures IsQuizAttempt(v) <==>
      v.Obj? && "id" in v.fields && "user_id" in v.fields && "quiz_id" in v.fields
  {
    if v.Arr? {
      GuardsRejectArrays(v.elems);
    }
  }

  /** `completed_at`, `score` and `started_at` are not required: an object with
      only the three id keys, holding values of any type, is accepted. */
  lemma IsQuizAttemptAcceptsIdsOnly(id: Value, userId: Value, quizId: Value)
    ensures IsQuizAttempt(Obj(map["id" := id, "user_id" := userId, "quiz_id" := quizId]))
  {
  }

  /** Every attempt row, once in plain-object form, passes `isQuizAttempt`. */
  lemma IsQuizAttemptAcceptsEveryAttempt(a: QuizAttempt)
    ensures IsQuizAttempt(QuizAttemptToJs(a))
  {
  }

  /** A quiz is not mistaken for an attempt: its plain-object form lacks
      `user_id` and `quiz_id`. */
  lemma IsQuizAttemptRejectsQuizzes(q: Quiz)
    ensures !IsQuizAttempt(QuizToJs(q))
  {
  }
}
