/** The attempt service: resolve (resume or create) an attempt for a
    (quiz, user) pair, record progress, complete an attempt, and list or look
    up attempts. Every call is a pure function of the attempts table; the
    clock is an abstract `now`, the id the store assigns to a new row is
    `newId`, and each remote call may fault. */
module Attempts {
  import opened Wrappers
  import opened Types
  import opened Gateway

  /** What a writing call hands back: its result and the table after it. */
  datatype Written<T> = Written(result: Result<T, PgError>, table: Table)

  /** The row `getOrCreateAttempt` inserts: score 0, not completed, nothing answered. */
  function NewAttempt(id: string, quizId: string, userId: string, now: nat): QuizAttempt {
    QuizAttempt(id, userId, quizId, now, None, None, 0, None)
  }

  /** The first row of a select's data, if the data is there and not empty
      (`existingAttempts?.[0]`). */
  function FirstRow(data: Option<Table>): Option<QuizAttempt> {
    if data.Some? && |data.value| > 0 then Some(data.value[0]) else None
  }

  /** `getOrCreateAttempt(quizId, userId)`: fetch the pair's latest attempt;
      resume it when it is not completed, otherwise insert a fresh one. */
  function GetOrCreateAttempt(
    t: Table, quizId: string, userId: string, now: nat, newId: string,
    fetchFault: Option<PgError>, insertFault: Option<PgError>): (r: Written<QuizAttempt>)
    ensures fetchFault.Some? ==> r == Written(Err(fetchFault.value), t)
    ensures r.result.Err? ==> r.table == t
    ensures r.table == t || r.table == t + [NewAttempt(newId, quizId, userId, now)]
    ensures r.result.Ok? ==> r.result.value in r.table
    ensures r.result.Ok? ==> ForPair(r.result.value, quizId, userId)
    ensures r.result.Ok? ==> r.result.value.completedAt.None?
    ensures r.result.Ok? && r.table == t ==> Latest(t, quizId, userId) == Some(r.result.value)
    ensures r.table != t ==> r.result == Ok(NewAttempt(newId, quizId, userId, now))
    ensures r.table != t ==> Latest(t, quizId, userId).None? || Latest(t, quizId, userId).value.completedAt.Some?
  {
    var fetched := SelectLatestOfPair(t, quizId, userId, fetchFault);
    if fetched.error.Some? then
      Written(Err(fetched.error.value), t)
    else
      var last := FirstRow(fetched.data);
      if last.Some? && last.value.completedAt.None? then
        Written(Ok(last.value), t)
      else
        var row := NewAttempt(newId, quizId, userId, now);
        match InsertRow(t, row, insertFault)
        case Ok(t') => Written(Ok(row), t')
        case Err(e) => Written(Err(e), t)
  }

  /** The columns `updateAttemptProgress` writes. */
  function ProgressPatch(lastAnsweredQuestionId: string, score: int, now: nat): Patch {
    Patch(None, Some(Some(lastAnsweredQuestionId)), Some(score), Some(Some(now)))
  }

  /** The columns `completeAttempt` writes. The source reads the clock once
      for `completed_at` and again for `updated_at`: `now` and `later`. */
  function CompletionPatch(finalScore: int, now: nat, later: nat): Patch {
    Patch(Some(Some(now)), None, Some(finalScore), Some(Some(later)))
  }

  /** `updateAttemptProgress(attemptId, lastAnsweredQuestionId, score)`. */
  function UpdateAttemptProgress(
    t: Table, attemptId: string, lastAnsweredQuestionId: string, score: int, now: nat,
    fault: Option<PgError>): (r: Result<Table, PgError>)
    ensures r.Err? <==> fault.Some?
    ensures r.Ok? ==> |r.value| == |t|
    ensures r.Ok? ==> forall i :: 0 <= i < |t| && t[i].id == attemptId ==>
      r.value[i] == t[i].(lastAnsweredQuestionId := Some(lastAnsweredQuestionId), score := score, updatedAt := Some(now))
    ensures r.Ok? ==> forall i :: 0 <= i < |t| && t[i].id != attemptId ==> r.value[i] == t[i]
  {
    UpdateRows(t, attemptId, ProgressPatch(lastAnsweredQuestionId, score, now), fault)
  }

  /** `completeAttempt(attemptId, finalScore)`. `now` is the clock reading
      stored as `completed_at`, `later` the (no earlier) one stored as
      `updated_at`. */
  function CompleteAttempt(
    t: Table, attemptId: string, finalScore: int, now: nat, later: nat,
    fault: Option<PgError>): (r: Result<Table, PgError>)
    requires now <= later
    ensures r.Err? <==> fault.Some?
    ensures r.Ok? ==> |r.value| == |t|
    ensures r.Ok? ==> forall i :: 0 <= i < |t| && t[i].id == attemptId ==>
      r.value[i] == t[i].(completedAt := Some(now), score := finalScore, updatedAt := Some(later))
    ensures r.Ok? ==> forall i :: 0 <= i < |t| && t[i].id != attemptId ==> r.value[i] == t[i]
  {
    UpdateRows(t, attemptId, CompletionPatch(finalScore, now, later), fault)
  }

  /** How `getUserAttempts` reads a select reply: a reported error is raised,
      missing data reads as the empty list, otherwise the data is returned. */
  function UserAttemptsFromReply(reply: Reply<Table>): (r: Result<Table, PgError>)
    ensures reply.error.Some? ==> r == Err(reply.error.value)
    ensures reply.error.None? && reply.data.None? ==> r == Ok([])
    ensures reply.error.None? && reply.data.Some? ==> r == Ok(reply.data.value)
  {
    if reply.error.Some? then Err(reply.error.value)
    else Ok(reply.data.GetOr([]))
  }

  /** `getUserAttempts(userId)`. The joined quiz and category are not modelled. */
  function GetUserAttempts(t: Table, userId: string, fault: Option<PgError>): (r: Result<Table, PgError>)
    ensures fault.Some? ==> r == Err(fault.value)
    ensures fault.None? ==> r.Ok?
    ensures r.Ok? ==> LatestFirst(r.value)
    ensures r.Ok? ==> forall a :: multiset(r.value)[a] == if a.userId == userId then multiset(t)[a] else 0
  {
    UserAttemptsFromReply(SelectByUser(t, userId, fault))
  }

  /** How `getLastAttempt` reads a `.single()` reply: the no-rows code becomes
      `null`, any other error is raised, otherwise the data is returned. */
  function LastAttemptFromReply(reply: Reply<QuizAttempt>): (r: Result<Option<QuizAttempt>, PgError>)
    ensures reply.error.Some? ==> (r == Ok(None) <==> reply.error.value.code == NoRowsCode)
    ensures reply.error.Some? && reply.error.value.code != NoRowsCode ==> r == Err(reply.error.value)
    ensures reply.error.None? ==> r == Ok(reply.data)
  {
    match reply.error
    case Some(e) => if e.code == NoRowsCode then Ok(None) else Err(e)
    case None => Ok(reply.data)
  }

  /** `getLastAttempt(quizId, userId)`. */
  function GetLastAttempt(t: Table, quizId: string, userId: string, fault: Option<PgError>): (r: Result<Option<QuizAttempt>, PgError>)
    ensures fault.None? ==> r == Ok(Latest(t, quizId, userId))
    ensures fault.Some? && fault.value.code == NoRowsCode ==> r == Ok(None)
    ensures fault.Some? && fault.value.code != NoRowsCode ==> r == Err(fault.value)
  {
    LastAttemptFromReply(SelectSingleLatestOfPair(t, quizId, userId, fault))
  }

  // ---------------------------------------------------------------------
  // The resolution rule

  /** When the pair's latest attempt is not completed, it is resumed: the
      same row comes back and nothing is written, whatever the insert would
      have done. */
  lemma ResumesActiveLatest(
    t: Table, quizId: string, userId: string, now: nat, newId: string,
    insertFault: Option<PgError>, a: QuizAttempt)
    requires Latest(t, quizId, userId) == Some(a) && a.completedAt.None?
    ensures GetOrCreateAttempt(t, quizId, userId, now, newId, None, insertFault) == Written(Ok(a), t)
  {
  }

  /** When the pair has no attempt, or its latest one is completed, exactly
      one row is appended: the pair's fresh attempt with score 0, not
      completed, which is also the row returned. */
  lemma CreatesWhenNoActiveLatest(
    t: Table, quizId: string, userId: string, now: nat, newId: string)
    requires Latest(t, quizId, userId).None? || Latest(t, quizId, userId).value.completedAt.Some?
    requires !HasId(t, newId)
    ensures var row := NewAttempt(newId, quizId, userId, now);
      && row.quizId == quizId && row.userId == userId && row.score == 0
      && row.completedAt.None? && row.startedAt == now
      && GetOrCreateAttempt(t, quizId, userId, now, newId, None, None) == Written(Ok(row), t + [row])
  {
  }

  /** A failed insert leaves the table as it was and raises the store's error. */
  lemma InsertFailureWritesNothing(
    t: Table, quizId: string, userId: string, now: nat, newId: string, e: PgError)
    requires Latest(t, quizId, userId).None? || Latest(t, quizId, userId).value.completedAt.Some?
    ensures GetOrCreateAttempt(t, quizId, userId, now, newId, None, Some(e)) == Written(Err(e), t)
  {
  }

  /** Only the latest attempt is consulted: an older attempt of the pair that
      was never completed is not resumed when the pair's newest attempt is
      completed. */
  lemma OlderActiveAttemptIgnored(
    t: Table, quizId: string, userId: string, now: nat, newId: string,
    older: QuizAttempt, newest: QuizAttempt)
    requires older in t && ForPair(older, quizId, userId) && older.completedAt.None?
    requires newest in t && ForPair(newest, quizId, userId) && newest.completedAt.Some?
    requires forall a :: a in t && ForPair(a, quizId, userId) && a != newest ==> a.startedAt < newest.startedAt
    requires !HasId(t, newId)
    ensures var r := GetOrCreateAttempt(t, quizId, userId, now, newId, None, None);
      r.result.Ok? && r.result.value != older && |r.table| == |t| + 1
  {
    assert Latest(t, quizId, userId) == Some(newest);
    CreatesWhenNoActiveLatest(t, quizId, userId, now, newId);
    assert older.id != newId;
  }

  /** A concrete instance of the rule above: an abandoned attempt started at
      time 1 and a completed one started at time 2; a third call at time 3
      opens attempt "c". */
  lemma AbandonedAttemptExample(abandoned: QuizAttempt, finished: QuizAttempt)
    requires abandoned == QuizAttempt("a", "u", "q", 1, None, None, 3, None)
    requires finished == QuizAttempt("b", "u", "q", 2, Some(5), None, 7, Some(5))
    ensures GetOrCreateAttempt([abandoned, finished], "q", "u", 3, "c", None, None)
      == Written(Ok(NewAttempt("c", "q", "u", 3)), [abandoned, finished, NewAttempt("c", "q", "u", 3)])
  {
    var t := [abandoned, finished];
    assert Latest(t, "q", "u") == Some(finished) by {
      assert finished in t;
      var l := Latest(t, "q", "u");
      assert l.value in t;
      assert l.value.startedAt >= 2;
    }
    assert !HasId(t, "c");
    var row := NewAttempt("c", "q", "u", 3);
    assert t + [row] == [abandoned, finished, row];
    CreatesWhenNoActiveLatest(t, "q", "u", 3, "c");
  }

  // ---------------------------------------------------------------------
  // The clock and repeated calls

  /** The clock reads later than every row's start: `now` is a monotone clock
      that has advanced since the last write. */
  predicate ClockAhead(t: Table, now: nat) {
    forall a :: a in t ==> a.startedAt < now
  }

  /** A freshly created attempt becomes the pair's latest, strictly later
      than any attempt the pair had before. */
  lemma CreatedAttemptIsLatest(t: Table, quizId: string, userId: string, now: nat, newId: string)
    requires ClockAhead(t, now)
    ensures var row := NewAttempt(newId, quizId, userId, now);
      && Latest(t + [row], quizId, userId) == Some(row)
      && (Latest(t, quizId, userId).Some? ==> Latest(t, quizId, userId).value.startedAt < row.startedAt)
  {
    var row := NewAttempt(newId, quizId, userId, now);
    var l := Latest(t + [row], quizId, userId);
    assert row in t + [row];
  }

  /** Whatever `getOrCreateAttempt` hands back is, afterwards, the pair's
      latest attempt. */
  lemma ReturnedAttemptIsLatest(
    t: Table, quizId: string, userId: string, now: nat, newId: string,
    fetchFault: Option<PgError>, insertFault: Option<PgError>)
    requires ClockAhead(t, now)
    ensures var r := GetOrCreateAttempt(t, quizId, userId, now, newId, fetchFault, insertFault);
      r.result.Ok? ==> Latest(r.table, quizId, userId) == Some(r.result.value)
  {
    var r := GetOrCreateAttempt(t, quizId, userId, now, newId, fetchFault, insertFault);
    if r.table != t {
      CreatedAttemptIsLatest(t, quizId, userId, now, newId);
    }
  }

  /** Calling `getOrCreateAttempt` again for the same pair, with no other
      write in between, hands back the attempt the first call returned and
      writes nothing. The table starts with every active attempt its pair's
      strictly newest, so no tie on `started_at` decides the outcome. */
  lemma SecondCallResumes(
    t: Table, quizId: string, userId: string, now: nat, newId: string,
    fetchFault: Option<PgError>, insertFault: Option<PgError>,
    later: nat, newId2: string, insertFault2: Option<PgError>)
    requires ActiveIsLatest(t) && ClockAhead(t, now)
    requires GetOrCreateAttempt(t, quizId, userId, now, newId, fetchFault, insertFault).result.Ok?
    ensures var first := GetOrCreateAttempt(t, quizId, userId, now, newId, fetchFault, insertFault);
      GetOrCreateAttempt(first.table, quizId, userId, later, newId2, None, insertFault2)
        == Written(first.result, first.table)
  {
    var first := GetOrCreateAttempt(t, quizId, userId, now, newId, fetchFault, insertFault);
    GetOrCreateKeepsActiveIsLatest(t, quizId, userId, now, newId, fetchFault, insertFault);
    ActiveAttemptIsUniqueNewest(first.table, quizId, userId, first.result.value);
    ResumesActiveLatest(first.table, quizId, userId, later, newId2, insertFault2, first.result.value);
  }

  // ---------------------------------------------------------------------
  // Table invariants

  /** Every attempt id names one row. */
  predicate UniqueIds(t: Table) {
    forall i, j :: 0 <= i < |t| && 0 <= j < |t| && t[i].id == t[j].id ==> i == j
  }

  /** An attempt that is not completed started strictly after every other
      attempt of its pair. */
  predicate ActiveIsLatest(t: Table) {
    forall i, j ::
      (0 <= i < |t| && 0 <= j < |t| && i != j && t[i].completedAt.None?
       && ForPair(t[j], t[i].quizId, t[i].userId)) ==> t[j].startedAt < t[i].startedAt
  }

  /** The rule "at most one active attempt per (quiz, user)". */
  predicate AtMostOneActive(t: Table) {
    forall i, j ::
      (0 <= i < |t| && 0 <= j < |t| && t[i].completedAt.None? && t[j].completedAt.None?
       && ForPair(t[j], t[i].quizId, t[i].userId)) ==> i == j
  }

  lemma ActiveIsLatestGivesAtMostOneActive(t: Table)
    requires ActiveIsLatest(t)
    ensures AtMostOneActive(t)
  {
    forall i, j | 0 <= i < |t| && 0 <= j < |t| && t[i].completedAt.None? && t[j].completedAt.None?
      && ForPair(t[j], t[i].quizId, t[i].userId)
      ensures i == j
    {
      assert ForPair(t[i], t[j].quizId, t[j].userId);
    }
  }

  /** Under `ActiveIsLatest`, an active attempt is its pair's only attempt of
      greatest `started_at`, so it is the pair's latest whatever order the
      store gives rows with equal `started_at`. */
  lemma ActiveAttemptIsUniqueNewest(t: Table, quizId: string, userId: string, a: QuizAttempt)
    requires ActiveIsLatest(t)
    requires a in t && ForPair(a, quizId, userId) && a.completedAt.None?
    ensures forall b :: b in t && ForPair(b, quizId, userId) && a.startedAt <= b.startedAt ==> b == a
    ensures Latest(t, quizId, userId) == Some(a)
  {
    var i :| 0 <= i < |t| && t[i] == a;
    forall b | b in t && ForPair(b, quizId, userId) && a.startedAt <= b.startedAt
      ensures b == a
    {
      var j :| 0 <= j < |t| && t[j] == b;
      assert i == j;
    }
  }

  /** Under `ActiveIsLatest`, a pair whose latest attempt is completed has
      no active attempt at all. */
  lemma CompletedLatestMeansNoActive(t: Table, quizId: string, userId: string)
    requires ActiveIsLatest(t)
    requires Latest(t, quizId, userId).Some? && Latest(t, quizId, userId).value.completedAt.Some?
    ensures forall k :: 0 <= k < |t| && ForPair(t[k], quizId, userId) ==> t[k].completedAt.Some?
  {
  }

  /** Appending a row that started after every other row keeps the
      invariant, provided its pair has no active attempt yet. */
  lemma AppendKeepsActiveIsLatest(t: Table, row: QuizAttempt)
    requires ActiveIsLatest(t) && ClockAhead(t, row.startedAt)
    requires forall k :: 0 <= k < |t| && ForPair(t[k], row.quizId, row.userId) ==> t[k].completedAt.Some?
    ensures ActiveIsLatest(t + [row])
  {
    var t' := t + [row];
    forall i, j | 0 <= i < |t'| && 0 <= j < |t'| && i != j && t'[i].completedAt.None?
      && ForPair(t'[j], t'[i].quizId, t'[i].userId)
      ensures t'[j].startedAt < t'[i].startedAt
    {
      if i == |t| {
        assert t'[j] in t;
      } else if j < |t| {
        assert t'[i] == t[i] && t'[j] == t[j];
      } else {
        assert ForPair(t[i], row.quizId, row.userId);
      }
    }
  }

  /** Sequential calls of `getOrCreateAttempt` on a monotone clock never open
      a second active attempt for a pair. */
  lemma GetOrCreateKeepsActiveIsLatest(
    t: Table, quizId: string, userId: string, now: nat, newId: string,
    fetchFault: Option<PgError>, insertFault: Option<PgError>)
    requires ActiveIsLatest(t) && ClockAhead(t, now)
    ensures ActiveIsLatest(GetOrCreateAttempt(t, quizId, userId, now, newId, fetchFault, insertFault).table)
  {
    var r := GetOrCreateAttempt(t, quizId, userId, now, newId, fetchFault, insertFault);
    if r.table != t {
      var row := NewAttempt(newId, quizId, userId, now);
      if Latest(t, quizId, userId).Some? {
        CompletedLatestMeansNoActive(t, quizId, userId);
      } else {
        assert forall k :: 0 <= k < |t| ==> t[k] in t;
      }
      AppendKeepsActiveIsLatest(t, row);
    }
  }

  /** Recording progress never changes whether any attempt is completed, so
      it keeps the invariant. */
  lemma UpdateProgressKeepsActiveIsLatest(
    t: Table, attemptId: string, lastAnsweredQuestionId: string, score: int, now: nat)
    requires ActiveIsLatest(t)
    ensures ActiveIsLatest(UpdateAttemptProgress(t, attemptId, lastAnsweredQuestionId, score, now, None).value)
  {
    var t' := UpdateAttemptProgress(t, attemptId, lastAnsweredQuestionId, score, now, None).value;
    forall i, j | 0 <= i < |t'| && 0 <= j < |t'| && i != j && t'[i].completedAt.None?
      && ForPair(t'[j], t'[i].quizId, t'[i].userId)
      ensures t'[j].startedAt < t'[i].startedAt
    {
      assert t[i].completedAt.None? && ForPair(t[j], t[i].quizId, t[i].userId);
    }
  }

  /** Completing an attempt only removes active attempts, so it keeps the invariant. */
  lemma CompleteKeepsActiveIsLatest(t: Table, attemptId: string, finalScore: int, now: nat, later: nat)
    requires ActiveIsLatest(t) && now <= later
    ensures ActiveIsLatest(CompleteAttempt(t, attemptId, finalScore, now, later, None).value)
  {
    var t' := CompleteAttempt(t, attemptId, finalScore, now, later, None).value;
    forall i, j | 0 <= i < |t'| && 0 <= j < |t'| && i != j && t'[i].completedAt.None?
      && ForPair(t'[j], t'[i].quizId, t'[i].userId)
      ensures t'[j].startedAt < t'[i].startedAt
    {
      assert t[i].completedAt.None? && ForPair(t[j], t[i].quizId, t[i].userId);
    }
  }

  /** Ids stay unique: a new row only goes in under an id no row has. */
  lemma GetOrCreateKeepsUniqueIds(
    t: Table, quizId: string, userId: string, now: nat, newId: string,
    fetchFault: Option<PgError>, insertFault: Option<PgError>)
    requires UniqueIds(t)
    ensures UniqueIds(GetOrCreateAttempt(t, quizId, userId, now, newId, fetchFault, insertFault).table)
  {
    var r := GetOrCreateAttempt(t, quizId, userId, now, newId, fetchFault, insertFault);
    if r.table != t {
      var t' := r.table;
      assert !HasId(t, newId);
      forall i, j | 0 <= i < |t'| && 0 <= j < |t'| && t'[i].id == t'[j].id
        ensures i == j
      {
        if i < |t| {
          assert t[i] in t;
        }
        if j < |t| {
          assert t[j] in t;
        }
      }
    }
  }

  /** An attempt, once completed, stays completed through every write: the
      completed state is terminal. */
  lemma CompletionIsNeverUndone(
    t: Table, i: nat, attemptId: string, lastAnsweredQuestionId: string, score: int, now: nat, later: nat,
    quizId: string, userId: string, newId: string, fetchFault: Option<PgError>, insertFault: Option<PgError>)
    requires i < |t| && t[i].completedAt.Some? && now <= later
    ensures UpdateAttemptProgress(t, attemptId, lastAnsweredQuestionId, score, now, None).value[i].completedAt == t[i].completedAt
    ensures CompleteAttempt(t, attemptId, score, now, later, None).value[i].completedAt.Some?
    ensures GetOrCreateAttempt(t, quizId, userId, now, newId, fetchFault, insertFault).table[i] == t[i]
  {
  }

  // ---------------------------------------------------------------------
  // Overwrites keyed by id

  /** An id that names no row makes both updates succeed without changing anything. */
  lemma UpdateOfMissingIdChangesNothing(
    t: Table, attemptId: string, lastAnsweredQuestionId: string, score: int, now: nat, later: nat)
    requires !HasId(t, attemptId) && now <= later
    ensures UpdateAttemptProgress(t, attemptId, lastAnsweredQuestionId, score, now, None) == Ok(t)
    ensures CompleteAttempt(t, attemptId, score, now, later, None) == Ok(t)
  {
    var t1 := UpdateAttemptProgress(t, attemptId, lastAnsweredQuestionId, score, now, None).value;
    var t2 := CompleteAttempt(t, attemptId, score, now, later, None).value;
    forall i | 0 <= i < |t| ensures t1[i] == t[i] && t2[i] == t[i] {
      assert t[i] in t;
    }
    assert t1 == t;
    assert t2 == t;
  }

  /** Completing twice: the second call's score and time win, exactly as if
      only the second call had been made. */
  lemma CompleteTwiceLastWriteWins(
    t: Table, attemptId: string, s1: int, n1: nat, l1: nat, s2: int, n2: nat, l2: nat)
    requires n1 <= l1 && n2 <= l2
    ensures CompleteAttempt(CompleteAttempt(t, attemptId, s1, n1, l1, None).value, attemptId, s2, n2, l2, None)
      == CompleteAttempt(t, attemptId, s2, n2, l2, None)
    ensures forall i :: 0 <= i < |t| && t[i].id == attemptId ==>
      var row := CompleteAttempt(CompleteAttempt(t, attemptId, s1, n1, l1, None).value, attemptId, s2, n2, l2, None).value[i];
      row.score == s2 && row.completedAt == Some(n2) && row.updatedAt == Some(l2)
  {
    var once := CompleteAttempt(t, attemptId, s1, n1, l1, None).value;
    var twice := CompleteAttempt(once, attemptId, s2, n2, l2, None).value;
    var direct := CompleteAttempt(t, attemptId, s2, n2, l2, None).value;
    forall i | 0 <= i < |t| ensures twice[i] == direct[i] {
      assert once[i].id == t[i].id;
    }
    assert twice == direct;
  }

  /** Recording progress twice: the second call's question and score win. */
  lemma ProgressTwiceLastWriteWins(
    t: Table, attemptId: string, q1: string, s1: int, n1: nat, q2: string, s2: int, n2: nat)
    ensures UpdateAttemptProgress(UpdateAttemptProgress(t, attemptId, q1, s1, n1, None).value, attemptId, q2, s2, n2, None)
      == UpdateAttemptProgress(t, attemptId, q2, s2, n2, None)
  {
    var once := UpdateAttemptProgress(t, attemptId, q1, s1, n1, None).value;
    var twice := UpdateAttemptProgress(once, attemptId, q2, s2, n2, None).value;
    var direct := UpdateAttemptProgress(t, attemptId, q2, s2, n2, None).value;
    forall i | 0 <= i < |t| ensures twice[i] == direct[i] {
      assert once[i].id == t[i].id;
    }
    assert twice == direct;
  }

  // ---------------------------------------------------------------------
  // Reads

  /** `getLastAttempt` yields `null` exactly when the store reports the
      no-rows code: either the pair has no attempt, or the call itself
      failed with that code. */
  lemma LastAttemptNullExactlyOnNoRows(t: Table, quizId: string, userId: string, fault: Option<PgError>)
    ensures GetLastAttempt(t, quizId, userId, fault) == Ok(None) <==>
      || (fault.None? && forall a :: a in t ==> !ForPair(a, quizId, userId))
      || (fault.Some? && fault.value.code == NoRowsCode)
  {
  }

  /** `getLastAttempt` and `getOrCreateAttempt` look at the same row: when
      the former reports an attempt that is not completed, the latter
      resumes it. On a table where every active attempt is its pair's
      strictly newest, that row does not depend on how ties are ordered. */
  lemma LastAttemptAgreesWithResolver(
    t: Table, quizId: string, userId: string, now: nat, newId: string, insertFault: Option<PgError>)
    requires ActiveIsLatest(t)
    ensures var last := GetLastAttempt(t, quizId, userId, None).value;
      last.Some? && last.value.completedAt.None? ==>
        GetOrCreateAttempt(t, quizId, userId, now, newId, None, insertFault) == Written(Ok(last.value), t)
    ensures var last := GetLastAttempt(t, quizId, userId, None).value;
      last.Some? && last.value.completedAt.None? ==>
        forall b :: b in t && ForPair(b, quizId, userId) && last.value.startedAt <= b.startedAt ==> b == last.value
  {
    var last := GetLastAttempt(t, quizId, userId, None).value;
    if last.Some? && last.value.completedAt.None? {
      ActiveAttemptIsUniqueNewest(t, quizId, userId, last.value);
    }
  }

  /** `getUserAttempts` lists every attempt of the user (and no other),
      newest first. */
  lemma UserAttemptsAreExactlyTheUsers(t: Table, userId: string)
    ensures var r := GetUserAttempts(t, userId, None);
      && r.Ok?
      && LatestFirst(r.value)
      && (forall a :: a in r.value <==> a in t && a.userId == userId)
      && |r.value| == |WhereUser(t, userId)|
  {
    var r := GetUserAttempts(t, userId, None).value;
    var w := WhereUser(t, userId);
    assert multiset(r) == multiset(w) by {
      forall a ensures multiset(r)[a] == multiset(w)[a] {}
    }
    assert |r| == |multiset(r)| == |multiset(w)| == |w|;
    forall a ensures a in r <==> a in t && a.userId == userId {
      assert a in r <==> multiset(r)[a] > 0;
      assert a in t <==> multiset(t)[a] > 0;
    }
  }

  /** Missing data in a select reply reads as the empty list, not an error. */
  lemma MissingDataIsEmptyList()
    ensures UserAttemptsFromReply(Reply(None, None)) == Ok([])
  {
  }
}
