/** The hosted store's `quiz_attempts` table as an in-memory sequence of rows,
    and the gateway calls the attempt service issues against it: filtered,
    ordered and limited selects, inserts, and updates keyed by id. Each call
    is a pure function of the table; a remote failure the service cannot see
    is an explicit `fault` parameter. */
module Gateway {
  import opened Wrappers
  import opened Types

  type Table = seq<QuizAttempt>

  /** A structured store error: a machine-readable code and a message. */
  datatype PgError = PgError(code: string, message: string)

  /** The code the REST layer reports when `.single()` finds no row. */
  const NoRowsCode: string := "PGRST116"
  /** The code the store reports when an insert repeats a primary key. */
  const UniqueViolationCode: string := "23505"

  /** The client library's `{ data, error }` reply to a select. */
  datatype Reply<T> = Reply(data: Option<T>, error: Option<PgError>)

  /** A reply as the store produces it: exactly one of data and error. */
  predicate WellFormedReply<T>(r: Reply<T>) {
    r.data.Some? != r.error.Some?
  }

  /** The reply to a read whose answer is `value`, unless the call faulted. */
  function Answer<T>(fault: Option<PgError>, value: T): (r: Reply<T>)
    ensures WellFormedReply(r)
    ensures fault.Some? ==> r.error == fault
    ensures fault.None? ==> r.data == Some(value)
  {
    match fault
    case Some(e) => Reply(None, Some(e))
    case None => Reply(Some(value), None)
  }

  predicate ForPair(a: QuizAttempt, quizId: string, userId: string) {
    a.quizId == quizId && a.userId == userId
  }

  /** The rows of `t` that satisfy `keep`, in table order. */
  function Where(t: Table, keep: QuizAttempt -> bool): (r: Table)
    ensures forall a :: multiset(r)[a] == if keep(a) then multiset(t)[a] else 0
    ensures forall a :: a in r <==> a in t && keep(a)
  {
    if t == [] then []
    else
      var rest := Where(t[1..], keep);
      assert t == [t[0]] + t[1..];
      if keep(t[0]) then [t[0]] + rest else rest
  }

  /** `.eq('quiz_id', quizId).eq('user_id', userId)` */
  function WherePair(t: Table, quizId: string, userId: string): (r: Table)
    ensures forall a :: a in r <==> a in t && ForPair(a, quizId, userId)
  {
    Where(t, (a: QuizAttempt) => ForPair(a, quizId, userId))
  }

  /** `.eq('user_id', userId)`, keeping every matching row with its multiplicity. */
  function WhereUser(t: Table, userId: string): (r: Table)
    ensures forall a :: multiset(r)[a] == if a.userId == userId then multiset(t)[a] else 0
  {
    Where(t, (a: QuizAttempt) => a.userId == userId)
  }

  /** Rows ordered by `started_at`, newest first. */
  predicate LatestFirst(s: Table) {
    forall i, j :: 0 <= i < j < |s| ==> s[j].startedAt <= s[i].startedAt
  }

  /** No row of `s` started later than `bound`. */
  predicate StartedBy(s: Table, bound: nat) {
    forall k :: 0 <= k < |s| ==> s[k].startedAt <= bound
  }

  /** Prepending a row that started no earlier than the rest keeps the order. */
  lemma PrependLatest(x: QuizAttempt, s: Table)
    requires LatestFirst(s) && StartedBy(s, x.startedAt)
    ensures LatestFirst([x] + s)
  {
  }

  /** Inserts `a` before the first row that did not start later than it. */
  function InsertByStart(a: QuizAttempt, s: Table): (r: Table)
    requires LatestFirst(s)
    ensures LatestFirst(r)
    ensures multiset(r) == multiset(s) + multiset{a}
    ensures forall bound: nat :: StartedBy(s, bound) && a.startedAt <= bound ==> StartedBy(r, bound)
  {
    if s == [] || s[0].startedAt <= a.startedAt then
      PrependLatest(a, s);
      [a] + s
    else
      var rest := InsertByStart(a, s[1..]);
      assert s == [s[0]] + s[1..];
      assert StartedBy(s[1..], s[0].startedAt);
      PrependLatest(s[0], rest);
      [s[0]] + rest
  }

  /** `.order('started_at', { ascending: false })`. The store leaves the order
      of rows with equal `started_at` open; this order keeps them in table
      order (a stable sort). */
  function OrderByStartDesc(s: Table): (r: Table)
    ensures LatestFirst(r)
    ensures multiset(r) == multiset(s)
  {
    if s == [] then []
    else
      assert s == [s[0]] + s[1..];
      InsertByStart(s[0], OrderByStartDesc(s[1..]))
  }

  /** The row `.order('started_at', desc).limit(1)` yields for a (quiz, user)
      pair: absent exactly when the pair has no row, otherwise one of the
      pair's rows with the greatest `started_at`. */
  function Latest(t: Table, quizId: string, userId: string): (r: Option<QuizAttempt>)
    ensures r.None? <==> forall a :: a in t ==> !ForPair(a, quizId, userId)
    ensures r.Some? ==> r.value in t && ForPair(r.value, quizId, userId)
    ensures r.Some? ==> forall a :: a in t && ForPair(a, quizId, userId) ==> a.startedAt <= r.value.startedAt
  {
    var matching := WherePair(t, quizId, userId);
    var ordered := OrderByStartDesc(matching);
    if ordered == [] then
      assert forall a :: a in t && ForPair(a, quizId, userId) ==> a in multiset(ordered);
      None
    else
      assert ordered[0] in multiset(ordered);
      assert forall a :: a in t && ForPair(a, quizId, userId) ==> a.startedAt <= ordered[0].startedAt by {
        forall a | a in t && ForPair(a, quizId, userId)
          ensures a.startedAt <= ordered[0].startedAt
        {
          assert a in multiset(ordered);
          var k :| 0 <= k < |ordered| && ordered[k] == a;
        }
      }
      Some(ordered[0])
  }

  /** `select('*').eq('quiz_id').eq('user_id').order('started_at', desc).limit(1)`:
      a list of at most one row. */
  function SelectLatestOfPair(t: Table, quizId: string, userId: string, fault: Option<PgError>): (r: Reply<Table>)
    ensures WellFormedReply(r)
    ensures fault.Some? ==> r.error == fault
    ensures fault.None? ==> r.error.None? && r.data.Some?
    ensures r.data.Some? ==> |r.data.value| <= 1
    ensures r.data.Some? ==> (r.data.value == [] <==> Latest(t, quizId, userId).None?)
    ensures r.data.Some? && r.data.value != [] ==> Latest(t, quizId, userId) == Some(r.data.value[0])
  {
    Answer(fault, match Latest(t, quizId, userId) case Some(a) => [a] case None => [])
  }

  /** The same select followed by `.single()`: zero rows is reported as the
      error `PGRST116` rather than as data. */
  function SelectSingleLatestOfPair(t: Table, quizId: string, userId: string, fault: Option<PgError>): (r: Reply<QuizAttempt>)
    ensures WellFormedReply(r)
    ensures fault.Some? ==> r.error == fault
    ensures fault.None? ==> (r.error.Some? <==> Latest(t, quizId, userId).None?)
    ensures fault.None? && r.error.Some? ==> r.error.value.code == NoRowsCode
    ensures r.data.Some? ==> Latest(t, quizId, userId) == r.data
  {
    if fault.Some? then Reply(None, fault)
    else
      match Latest(t, quizId, userId)
      case Some(a) => Reply(Some(a), None)
      case None => Reply(None, Some(PgError(NoRowsCode, "JSON object requested, multiple (or no) rows returned")))
  }

  /** `select(...).eq('user_id', userId).order('started_at', desc)`: every row
      of the user, newest first. */
  function SelectByUser(t: Table, userId: string, fault: Option<PgError>): (r: Reply<Table>)
    ensures WellFormedReply(r)
    ensures fault.Some? ==> r.error == fault
    ensures fault.None? ==> r.error.None? && r.data.Some?
    ensures r.data.Some? ==> LatestFirst(r.data.value)
    ensures r.data.Some? ==> forall a :: multiset(r.data.value)[a] == if a.userId == userId then multiset(t)[a] else 0
  {
    Answer(fault, OrderByStartDesc(WhereUser(t, userId)))
  }

  predicate HasId(t: Table, id: string) {
    exists a :: a in t && a.id == id
  }

  /** `insert(row).select().single()`: the row is appended and handed back,
      unless the call faults or the id is already taken (primary key). */
  function InsertRow(t: Table, row: QuizAttempt, fault: Option<PgError>): (r: Result<Table, PgError>)
    ensures r.Ok? <==> fault.None? && !HasId(t, row.id)
    ensures r.Ok? ==> r.value == t + [row]
    ensures fault.Some? ==> r == Err(fault.value)
    ensures fault.None? && HasId(t, row.id) ==> r.Err? && r.error.code == UniqueViolationCode
  {
    if fault.Some? then Err(fault.value)
    else if HasId(t, row.id) then Err(PgError(UniqueViolationCode, "duplicate key value violates unique constraint"))
    else Ok(t + [row])
  }

  /** The columns an `update` call writes; an absent entry leaves that column as it is. */
  datatype Patch = Patch(
    completedAt: Option<Option<nat>>,
    lastAnsweredQuestionId: Option<Option<string>>,
    score: Option<int>,
    updatedAt: Option<Option<nat>>)

  function ApplyPatch(a: QuizAttempt, p: Patch): QuizAttempt {
    a.(completedAt := p.completedAt.GetOr(a.completedAt),
       lastAnsweredQuestionId := p.lastAnsweredQuestionId.GetOr(a.lastAnsweredQuestionId),
       score := p.score.GetOr(a.score),
       updatedAt := p.updatedAt.GetOr(a.updatedAt))
  }

  /** The table after `update(p).eq('id', id)`: every row with that id is
      patched in place, every other row is left alone. */
  function UpdateWhereId(t: Table, id: string, p: Patch): (r: Table)
    ensures |r| == |t|
    ensures forall i :: 0 <= i < |t| ==> r[i] == if t[i].id == id then ApplyPatch(t[i], p) else t[i]
  {
    if t == [] then []
    else [if t[0].id == id then ApplyPatch(t[0], p) else t[0]] + UpdateWhereId(t[1..], id, p)
  }

  /** `update(p).eq('id', id)`: an id that matches no row is not an error. */
  function UpdateRows(t: Table, id: string, p: Patch, fault: Option<PgError>): (r: Result<Table, PgError>)
    ensures fault.Some? <==> r.Err?
    ensures r.Err? ==> r.error == fault.value
    ensures r.Ok? ==> r.value == UpdateWhereId(t, id, p)
  {
    if fault.Some? then Err(fault.value) else Ok(UpdateWhereId(t, id, p))
  }
}
