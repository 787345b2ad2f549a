# Quiz attempts, quiz selection store and runtime type guards

A Dafny model of the logic core of a quiz-taking web application whose
persistence lives in a hosted relational store. It covers three pieces:

- **The attempt service** (`src/lib/services/attempts.ts`). It resolves an
  attempt for a (quiz, user) pair with `getOrCreateAttempt`: it fetches the
  pair's latest attempt by `started_at`, resumes it when it has no
  `completed_at`, and otherwise inserts a fresh attempt with score 0. It also
  covers `updateAttemptProgress`, `completeAttempt`, `getUserAttempts` and
  `getLastAttempt`. `getLastAttempt` maps the store's no-rows code `PGRST116`
  to `null`.
- **The quiz selection store** (`src/lib/stores/quiz.ts`). This is a six-field
  state with whole-record transitions. Choosing a subject clears the category
  and the current quiz. Choosing a category clears the current quiz. `reset`
  restores the initial state.
- **The runtime type guards** (`src/lib/types.ts`). `isQuiz` and
  `isQuizAttempt` test an untyped value.

Files:

- `wrappers.dfy`: `Option` (the source's `null`) and `Result` (a value or a
  raised store error).
- `js.dfy`: the JavaScript semantics the guards use. It models `typeof`
  (null and arrays are "object"), the `in` operator (an array's keys are its
  canonical indices and "length"), property reads (a missing key reads as
  `undefined`) and `Array.isArray`, all over a JSON-like value.
- `types.dfy`: the `Choice`, `Question`, `Quiz` and `QuizAttempt` records, their
  plain-object forms under the store's column names, and the two guards with
  their exact acceptance conditions.
- `gateway.dfy`: the `quiz_attempts` table as a sequence of rows, plus the
  store calls the service makes. Those calls are filtered selects, ordering
  by `started_at` descending (a stable insertion sort, proved sorted and a
  permutation), `limit(1)`, `.single()` with its no-rows error, inserts keyed
  by a unique id, and updates keyed by id. A select answers with the
  client's `{ data, error }` pair.
- `attempts.dfy`: the five service operations as pure functions of the
  table, and lemmas about them.
- `quiz_store.dfy`: the store's transitions, algebraic laws relating them, and
  a reference characterization. After any run of calls, each field holds
  what the last call writing it wrote.

Inputs the source takes from its environment are parameters. These are the
clock (`now: nat`, abstract and monotone where a lemma needs it: `ClockAhead`),
the id the store assigns to a new row (`newId`), and whether a remote call
fails (`fault: Option<PgError>`, one per store call).

## Model

| member | source | states |
|---|---|---|
| Types.QuizToJs | src/lib/types.ts:3-10 | a quiz's interface fields (id, title, category, questions) arrive as an object with exactly those four keys; the quizzes row's other columns are not modelled |
| Types.QuizAttemptToJs | src/lib/types.ts:55-63 | an attempt row arrives as an object with exactly the interface's seven columns plus `updated_at`, the column the two updates write (src/lib/services/attempts.ts:54 and :73) |
| Types.IsQuiz | src/lib/types.ts:15-24 | an accepted value is an object whose questions field is an array |
| Types.IsQuizAttempt | src/lib/types.ts:26-33 | an accepted value is an object with the keys id, user_id and quiz_id |
| Types.IsQuizRejectsNull | src/lib/types.ts:18 | null is rejected by both guards, although its typeof is "object" |
| Types.GuardsRejectPrimitives | src/lib/types.ts:17 | undefined, booleans, numbers and strings are rejected by both guards |
| Types.GuardsRejectArrays | src/lib/types.ts:17-22 | arrays pass the typeof test but are rejected, since no array has an `id` key |
| Types.IsQuizExactly | src/lib/types.ts:15-24 | isQuiz holds iff the value is a non-null object with keys id, title and category whose questions field is an array |
| Types.IsQuizIgnoresFieldTypes | src/lib/types.ts:19-22 | any values under id, title and category keep an accepted object accepted; a non-array questions field rejects it |
| Types.IsQuizAcceptsEveryQuiz | src/lib/types.ts:3-24 | every well-typed quiz, as a plain object, passes isQuiz |
| Types.IsQuizAttemptExactly | src/lib/types.ts:26-33 | isQuizAttempt holds iff the value is a non-null object with keys id, user_id and quiz_id |
| Types.IsQuizAttemptAcceptsIdsOnly | src/lib/types.ts:29-32 | an object with only the three id keys, of any type, is accepted; completed_at, score and started_at are not required |
| Types.IsQuizAttemptAcceptsEveryAttempt | src/lib/types.ts:55-63 | every attempt row, as a plain object, passes isQuizAttempt |
| Types.IsQuizAttemptRejectsQuizzes | src/lib/types.ts:3-6 | a quiz's plain object is never taken for an attempt |
| Gateway.Where | src/lib/services/attempts.ts:12-13 | an equality filter keeps each row that passes with its multiplicity and drops every other row |
| Gateway.WherePair | src/lib/services/attempts.ts:12-13 | the quiz_id and user_id filter keeps exactly the pair's rows |
| Gateway.WhereUser | src/lib/services/attempts.ts:93 | the user_id filter keeps exactly the user's rows, with multiplicity |
| Gateway.OrderByStartDesc | src/lib/services/attempts.ts:14 | ordering by started_at descending yields a newest-first permutation of its input |
| Gateway.Latest | src/lib/services/attempts.ts:9-15 | the latest row of a pair is absent iff the pair has no row; otherwise it is one of the pair's rows, and no row of the pair started later |
| Gateway.SelectLatestOfPair | src/lib/services/attempts.ts:9-15 | the limited select reports an error iff the call faults; otherwise it returns data of at most one row, namely the pair's latest |
| Gateway.SelectSingleLatestOfPair | src/lib/services/attempts.ts:107-114 | with `.single()`, an empty result is reported as error PGRST116 rather than as data |
| Gateway.SelectByUser | src/lib/services/attempts.ts:84-94 | the user's select reports an error iff the call faults; otherwise it returns all of the user's rows and no others, newest first |
| Gateway.InsertRow | src/lib/services/attempts.ts:26-35 | an insert appends exactly the row, unless the call faults or the id is taken; a taken id without a fault fails with code 23505 |
| Gateway.UpdateWhereId | src/lib/services/attempts.ts:49-56 | an update keyed by id patches every row with that id in place and leaves every other row alone |
| Gateway.UpdateRows | src/lib/services/attempts.ts:49-58 | an update fails only when the call faults; an id that matches nothing is not an error |
| Attempts.GetOrCreateAttempt | src/lib/services/attempts.ts:8-39 | a fetch error is raised with the table unchanged; an error never writes; at most the pair's fresh row is appended; the attempt handed back is active, belongs to the pair, and is in the table; a resumed attempt is the pair's latest; a row is appended only when the latest is absent or completed |
| Attempts.UpdateAttemptProgress | src/lib/services/attempts.ts:44-59 | the rows with the id get the new question and score and keep completed_at; every other row is unchanged; only a fault is an error |
| Attempts.CompleteAttempt | src/lib/services/attempts.ts:64-78 | the rows with the id get completed_at from the first clock reading, updated_at from the second (no earlier) one, and the final score; every other row is unchanged; only a fault is an error |
| Attempts.UserAttemptsFromReply | src/lib/services/attempts.ts:96-97 | a reported error is raised; missing data reads as the empty list; otherwise the data is returned |
| Attempts.GetUserAttempts | src/lib/services/attempts.ts:83-98 | a fault is raised and only a fault; the result is newest first and holds exactly the user's rows |
| Attempts.LastAttemptFromReply | src/lib/services/attempts.ts:116-123 | an error reply becomes null iff its code is PGRST116; any other error is raised; a data reply is returned |
| Attempts.GetLastAttempt | src/lib/services/attempts.ts:103-124 | without a fault the result is the pair's latest row, or null if the pair has none; a PGRST116 fault gives null; any other fault is raised |
| Attempts.ResumesActiveLatest | src/lib/services/attempts.ts:20-23 | when the pair's latest attempt is active, that same attempt is returned and the table is unchanged |
| Attempts.CreatesWhenNoActiveLatest | src/lib/services/attempts.ts:26-38 | with no attempt, or a completed latest one, exactly one row is appended: the pair's, with score 0, started now, not completed; it is the row returned |
| Attempts.InsertFailureWritesNothing | src/lib/services/attempts.ts:37 | a failed insert raises the store's error and writes nothing |
| Attempts.OlderActiveAttemptIgnored | src/lib/services/attempts.ts:12-21 | an older active attempt is not resumed when the strictly newest one is completed; a new row is created and returned instead |
| Attempts.AbandonedAttemptExample | src/lib/services/attempts.ts:12-38 | concrete case: an active attempt at time 1 and a completed one at time 2 lead to a new attempt at time 3 |
| Attempts.CreatedAttemptIsLatest | src/lib/services/attempts.ts:31 | on an advancing clock, a new attempt becomes the pair's latest and started strictly after the previous latest |
| Attempts.ReturnedAttemptIsLatest | src/lib/services/attempts.ts:8-39 | on an advancing clock, whatever getOrCreateAttempt returns is afterwards the pair's latest attempt |
| Attempts.SecondCallResumes | src/lib/services/attempts.ts:8-39 | on an advancing clock, starting from a table where every active attempt is its pair's strictly newest, a repeated call with no write in between returns the same attempt and writes nothing |
| Attempts.ActiveAttemptIsUniqueNewest | src/lib/services/attempts.ts:9-23 | when every active attempt is its pair's strictly newest, an active attempt is the only row of its pair with the greatest started_at, so it is the pair's latest whatever order ties get |
| Attempts.ActiveIsLatestGivesAtMostOneActive | src/lib/services/attempts.ts:19-23 | if every active attempt is its pair's strictly newest, then no pair has two active attempts |
| Attempts.AppendKeepsActiveIsLatest | src/lib/services/attempts.ts:26-33 | appending the newest row of a pair that has no active attempt keeps every active attempt its pair's newest |
| Attempts.GetOrCreateKeepsActiveIsLatest | src/lib/services/attempts.ts:8-39 | sequential calls on an advancing clock never open a second active attempt for a pair |
| Attempts.UpdateProgressKeepsActiveIsLatest | src/lib/services/attempts.ts:49-56 | recording progress preserves the one-active-attempt invariant |
| Attempts.CompleteKeepsActiveIsLatest | src/lib/services/attempts.ts:68-75 | completing an attempt preserves the one-active-attempt invariant |
| Attempts.GetOrCreateKeepsUniqueIds | src/lib/services/attempts.ts:26-35 | attempt ids stay unique |
| Attempts.CompletionIsNeverUndone | src/lib/services/attempts.ts:49-75 | a completed attempt stays completed through every write: no call clears completed_at |
| Attempts.UpdateOfMissingIdChangesNothing | src/lib/services/attempts.ts:56-58 | updating or completing an id that names no row succeeds and changes nothing |
| Attempts.CompleteTwiceLastWriteWins | src/lib/services/attempts.ts:68-75 | completing twice is the same as completing once with the second score and clock readings; the last write wins |
| Attempts.ProgressTwiceLastWriteWins | src/lib/services/attempts.ts:49-56 | recording progress twice is the same as recording only the second progress |
| Attempts.LastAttemptNullExactlyOnNoRows | src/lib/services/attempts.ts:116-119 | getLastAttempt yields null iff the pair has no row or the call failed with code PGRST116 |
| Attempts.LastAttemptAgreesWithResolver | src/lib/services/attempts.ts:103-124 | on a table where every active attempt is its pair's strictly newest, when getLastAttempt reports an active attempt, getOrCreateAttempt resumes exactly that attempt, and it is the pair's only row with the greatest started_at |
| Attempts.UserAttemptsAreExactlyTheUsers | src/lib/services/attempts.ts:83-98 | getUserAttempts lists an attempt iff the user owns it, as many rows as the user has, newest first |
| Attempts.MissingDataIsEmptyList | src/lib/services/attempts.ts:97 | a reply with neither data nor error reads as the empty list |
| QuizStore.InitialIsBlank | src/lib/stores/quiz.ts:13-20 | the initial state has all four references null, loading false and error null, and is the only such state |
| QuizStore.SetCurrentQuiz | src/lib/stores/quiz.ts:27 | sets the current quiz; every other field is unchanged |
| QuizStore.SetCurrentAttempt | src/lib/stores/quiz.ts:28 | sets the current attempt; every other field is unchanged |
| QuizStore.SetSelectedSubject | src/lib/stores/quiz.ts:29-35 | sets the subject and clears the category and current quiz from any state; attempt, loading and error are unchanged |
| QuizStore.SetSelectedCategory | src/lib/stores/quiz.ts:36-41 | sets the category and clears the current quiz; subject, attempt, loading and error are unchanged |
| QuizStore.SetLoading | src/lib/stores/quiz.ts:42 | sets loading; every other field is unchanged |
| QuizStore.SetError | src/lib/stores/quiz.ts:43 | sets error without clearing any selection, the quiz or the attempt |
| QuizStore.Reset | src/lib/stores/quiz.ts:44 | from any state, yields the blank state |
| QuizStore.ResetIdempotent | src/lib/stores/quiz.ts:44 | reset is idempotent and its result does not depend on the prior state |
| QuizStore.SubjectThenCategoryKeepsSubject | src/lib/stores/quiz.ts:29-41 | choosing a subject and then a category keeps that subject and the category, with no current quiz |
| QuizStore.SubjectOverridesDownstream | src/lib/stores/quiz.ts:27-41 | a subject choice erases any earlier category or quiz choice; a category choice erases an earlier quiz choice |
| QuizStore.SubjectLastChoiceWins | src/lib/stores/quiz.ts:29-35 | of two subject choices, only the later one counts |
| QuizStore.FlagsCommuteWithSelection | src/lib/stores/quiz.ts:29-43 | the loading and error setters commute with the subject and category choices |
| QuizStore.ApplyWritesExactly | src/lib/stores/quiz.ts:27-44 | each call changes exactly the fields it writes, as listed per field |
| QuizStore.RunSnoc | src/lib/stores/quiz.ts:22-46 | a run of calls ends by applying its last call to the state before it |
| QuizStore.RunIsLastWrites | src/lib/stores/quiz.ts:22-46 | after any run of calls, each field holds what the last call writing it wrote, or its starting value |
| QuizStore.SubjectAfterRun | src/lib/stores/quiz.ts:29-44 | from the initial state, the subject after a run is the last one chosen since the last reset, or none |

## Left out

- The store client setup (`src/lib/api.ts`) is a foreign library. It is
  replaced by the in-memory table and the `fault` parameters.
- The HTTP endpoint (`src/routes/api/quiz-attempts/+server.ts`) is left out.
  It only handles sessions and maps errors to 401 and 500.
- The accessors in `src/lib/services/categories.ts`, `subjects.ts` and
  `quizzes.ts` are thin filtered selects. `createQuizAttempt` there is the
  insert branch of `getOrCreateAttempt`, which is modelled.
- Timestamps are abstract naturals, not ISO strings. Ordering ISO strings by
  text matches ordering by time, which the naturals keep.
- Rows with equal `started_at` get no defined order from the store. The model
  keeps them in table order, so `Gateway.Latest` is one particular row of
  greatest `started_at`.
- The columns an insert leaves to the store are a guess: `completed_at`,
  `last_answered_question_id` and `updated_at` start null. The store's id
  generation is the `newId` parameter.
- `getUserAttempts` joins each attempt with its quiz and category. The join
  is not modelled: the result holds the attempt rows only.
- Scores are integers. JavaScript's floating-point numbers are not modelled.
- The `in` operator ignores the prototype chain. None of the keys the guards
  test is an `Object.prototype` member.
- The store's `subscribe` mechanism, the reactive notification and any
  persistence of the store are left out. Each transition is a pure function.
- The race between concurrent `getOrCreateAttempt` calls is left out: calls
  are modelled one at a time. Under that assumption
  `Attempts.GetOrCreateKeepsActiveIsLatest` shows that no pair gains a second
  active attempt.
- `Attempts.CreatedAttemptIsLatest`, `Attempts.ReturnedAttemptIsLatest`,
  `Attempts.SecondCallResumes` and `Attempts.GetOrCreateKeepsActiveIsLatest`
  assume the clock has advanced past every stored `started_at`
  (`ClockAhead`). The source reads a wall clock and promises nothing about it.
- Attempts.ReturnedAttemptIsLatest: holds only on an advancing clock. If
  `now` equals the `started_at` of an earlier completed row of the pair, the
  fresh row ties with it and the store may order either first.
- Attempts.SecondCallResumes and Attempts.LastAttemptAgreesWithResolver:
  stated only for tables where every active attempt is its pair's strictly
  newest (`ActiveIsLatest`). Elsewhere the outcome depends on how the store
  orders rows with equal `started_at`.
- Types.QuizToJs: keeps only the fields of the `Quiz` interface. The columns a
  quizzes row also carries (such as `category_id` and `is_active`, filtered on
  in `src/lib/services/quizzes.ts:18-19`) are dropped.
  `Types.IsQuizAttemptRejectsQuizzes` relies on this: a row that also had
  `user_id` and `quiz_id` columns would pass `isQuizAttempt`.
- Attempts.CompleteAttempt: the two clock readings are only ordered
  (`now <= later`). How far apart they are is not modelled.
- Attempts.GetOrCreateAttempt and Attempts.InsertFailureWritesNothing: a
  `fault` models a call the store rejected, so nothing was written. A reply
  lost after the store committed the insert is not modelled: there the row is
  written and the error is still raised. The table is then the one a
  successful call leaves, so `Attempts.GetOrCreateKeepsActiveIsLatest` still
  covers it. A failed update of progress or completion is likewise read as
  one that wrote nothing.
- `updateAttemptProgress` and `completeAttempt` on an id that matches no row
  succeed and change nothing (`Attempts.UpdateOfMissingIdChangesNothing`).
