/**
 * The crash-isolation harness: `run_queries_until_crash_mp`,
 * `run_queries_until_crash` and `cleanup_irrelevant_queries`
 * (scripts/reduce_sql.py:121-182).
 *
 * The worker writes its progress to a SQLite file with two tables,
 * `queries(id, text)` and `result(text)`. Only committed writes survive:
 * either the worker dies, and the journal rolls back what was pending, or it
 * calls `close()`, which does not commit. The model keeps the pending and the
 * committed contents of both tables apart. The driver reads back what is
 * committed.
 */
module CrashHarness {
  import opened Wrappers
  import opened Text
  import opened Oracle
  import opened Statements
  import opened Sequences

  /** The placeholder written to `result` before any query runs. */
  const CrashMarker: string := "__CRASH__"

  /** A row of the `queries` table. */
  datatype Row = Row(id: int, text: string)

  /** What `run_queries_until_crash` returns: `(None, None)` or `(queries, error)`. */
  datatype Outcome = Outcome(queries: Option<seq<string>>, error: Option<string>)

  /** The script run for one query: `'\n'.join(data_load) + ';' + q`. */
  function TrialScript(dataLoad: seq<string>, q: string): string {
    Join(dataLoad, "\n") + ";" + q
  }

  function Scripts(dataLoad: seq<string>, qs: seq<string>): (r: seq<string>)
    ensures |r| == |qs|
  {
    seq(|qs|, i requires 0 <= i < |qs| => TrialScript(dataLoad, qs[i]))
  }

  function Texts(rows: seq<Row>): (r: seq<string>)
    ensures |r| == |rows|
  {
    seq(|rows|, i requires 0 <= i < |rows| => rows[i].text)
  }

  /** `DELETE FROM queries WHERE id=?`. */
  function WithoutId(rows: seq<Row>, id: int): seq<Row> {
    if rows == [] then []
    else (if rows[0].id == id then [] else [rows[0]]) + WithoutId(rows[1..], id)
  }

  /** `UPDATE result SET text=?`. */
  function SetAll(results: seq<string>, text: string): (r: seq<string>)
    ensures |r| == |results|
  {
    seq(|results|, _ => text)
  }

  /** The SQLite file of one harness run. */
  class Store {
    var queries: seq<Row>
    var result: seq<string>
    var committedQueries: seq<Row>
    var committedResult: seq<string>

    /** A fresh file with both tables created; the `CREATE TABLE`s run in
        autocommit mode, so both tables exist, empty, once this returns. */
    constructor ()
      ensures queries == [] && result == [] && committedQueries == [] && committedResult == []
    {
      queries, result := [], [];
      committedQueries, committedResult := [], [];
    }

    method InsertQuery(id: int, text: string)
      modifies this
      ensures queries == old(queries) + [Row(id, text)]
      ensures result == old(result)
      ensures committedQueries == old(committedQueries) && committedResult == old(committedResult)
    {
      queries := queries + [Row(id, text)];
    }

    method DeleteQuery(id: int)
      modifies this
      ensures queries == WithoutId(old(queries), id)
      ensures result == old(result)
      ensures committedQueries == old(committedQueries) && committedResult == old(committedResult)
    {
      queries := WithoutId(queries, id);
    }

    method InsertResult(text: string)
      modifies this
      ensures result == old(result) + [text]
      ensures queries == old(queries)
      ensures committedQueries == old(committedQueries) && committedResult == old(committedResult)
    {
      result := result + [text];
    }

    method UpdateResult(text: string)
      modifies this
      ensures result == SetAll(old(result), text)
      ensures queries == old(queries)
      ensures committedQueries == old(committedQueries) && committedResult == old(committedResult)
    {
      result := SetAll(result, text);
    }

    method DeleteResult()
      modifies this
      ensures result == []
      ensures queries == old(queries)
      ensures committedQueries == old(committedQueries) && committedResult == old(committedResult)
    {
      result := [];
    }

    /** Makes the pending contents durable. */
    method Commit()
      modifies this
      ensures queries == old(queries) && result == old(result)
      ensures committedQueries == queries && committedResult == result
    {
      committedQueries, committedResult := queries, result;
    }

    /** What a later connection sees: pending writes are rolled back. */
    method Close()
      modifies this
      ensures committedQueries == old(committedQueries) && committedResult == old(committedResult)
      ensures queries == committedQueries && result == committedResult
    {
      queries, result := committedQueries, committedResult;
    }
  }

  // ---------------------------------------------------------------------
  // Specification of one harness run

  /** Running `q` after the load either kills the worker or ends in an internal error. */
  predicate Faults(e: Engine, dataLoad: seq<string>, q: string) {
    var script := TrialScript(dataLoad, q);
    e.killsWorker(script) || e.isInternalError(e.run(script).stderr)
  }

  /** The position of the first query that faults, or `|qs|` when none does. */
  function FirstFault(e: Engine, dataLoad: seq<string>, qs: seq<string>): (k: nat)
    ensures k <= |qs|
    ensures k < |qs| ==> Faults(e, dataLoad, qs[k])
    ensures forall j :: 0 <= j < k ==> !Faults(e, dataLoad, qs[j])
  {
    if qs == [] then 0
    else if Faults(e, dataLoad, qs[0]) then 0
    else 1 + FirstFault(e, dataLoad, qs[1..])
  }

  /** Past a non-faulting query the first fault lies further on. */
  lemma FirstFaultNext(e: Engine, dataLoad: seq<string>, qs: seq<string>, i: nat)
    requires i < |qs| && FirstFault(e, dataLoad, qs) >= i && !Faults(e, dataLoad, qs[i])
    ensures FirstFault(e, dataLoad, qs) >= i + 1
  {
  }

  /** A faulting query with no fault before it is the first fault. */
  lemma FirstFaultAt(e: Engine, dataLoad: seq<string>, qs: seq<string>, i: nat)
    requires i < |qs| && FirstFault(e, dataLoad, qs) >= i && Faults(e, dataLoad, qs[i])
    ensures FirstFault(e, dataLoad, qs) == i
  {
  }

  /** The rows `(j + 1, qs[j])` of the DDL queries among the first `n`. */
  function DdlRows(qs: seq<string>, n: nat): seq<Row>
    requires n <= |qs|
  {
    if n == 0 then []
    else DdlRows(qs, n - 1) + (if IsDdlQuery(qs[n - 1]) then [Row(n, qs[n - 1])] else [])
  }

  /** The committed `queries` table once the worker has stopped. */
  function CommittedQueries(e: Engine, dataLoad: seq<string>, qs: seq<string>): seq<Row> {
    var k := FirstFault(e, dataLoad, qs);
    if k < |qs| then DdlRows(qs, k) + [Row(k + 1, qs[k])] else DdlRows(qs, |qs|)
  }

  /** The committed `result` table once the worker has stopped. */
  function CommittedResult(e: Engine, dataLoad: seq<string>, qs: seq<string>): seq<string> {
    if FirstFault(e, dataLoad, qs) < |qs| then [CrashMarker] else []
  }

  /** How many queries the worker runs: up to and including the first that faults. */
  function Attempted(e: Engine, dataLoad: seq<string>, qs: seq<string>): nat {
    var k := FirstFault(e, dataLoad, qs);
    if k < |qs| then k + 1 else |qs|
  }

  /** What `run_queries_until_crash` returns, in closed form. */
  function HarnessResult(e: Engine, dataLoad: seq<string>, qs: seq<string>): Outcome {
    var k := FirstFault(e, dataLoad, qs);
    if k < |qs| then Outcome(Some(Texts(DdlRows(qs, k)) + [qs[k]]), Some(CrashMarker))
    else Outcome(None, None)
  }

  /** The harness reproduces a fault for this sequence: some trial faults, so
      `HarnessResult` has an error. */
  predicate ReproducesFault(e: Engine, dataLoad: seq<string>, qs: seq<string>) {
    FirstFault(e, dataLoad, qs) < |qs|
  }

  // ---------------------------------------------------------------------
  // The worker and the reader

  /**
   * One pass of the loop of `run_queries_until_crash_mp`: records the query under `id`
   * and commits before running it, then keeps its row only if it is DDL or an internal
   * error came with a non-empty `expectedError` (which also writes the exception text
   * to `result`). `killed` says the run terminated the worker, after which nothing
   * else happens.
   */
  method RecordAndRun(store: Store, e: Engine, dataLoad: seq<string>, q: string, id: int,
                      expectedError: string)
    returns (script: string, killed: bool, internalError: bool)
    requires forall r :: r in store.queries ==> r.id < id
    modifies store
    ensures script == TrialScript(dataLoad, q)
    ensures killed == e.killsWorker(script)
    ensures !killed ==> internalError == e.isInternalError(e.run(script).stderr)
    ensures killed || internalError <==> Faults(e, dataLoad, q)
    ensures store.committedQueries == old(store.queries) + [Row(id, q)]
    ensures store.committedResult == old(store.result)
    ensures !killed && !internalError ==>
      store.queries == old(store.queries) + (if IsDdlQuery(q) then [Row(id, q)] else [])
      && store.result == old(store.result)
  {
    store.InsertQuery(id, q);
    store.Commit();
    var keepQuery := IsDdlQuery(q);
    script := TrialScript(dataLoad, q);
    killed := e.killsWorker(script);
    internalError := false;
    if killed {
      return;
    }
    var out := e.run(script);
    internalError := e.isInternalError(out.stderr);
    var exceptionError := e.exceptionOf(out.stderr);
    if internalError && |expectedError| > 0 {
      keepQuery := true;
      store.UpdateResult(exceptionError);
    }
    if !keepQuery {
      WithoutNewId(old(store.queries), q, id);
      store.DeleteQuery(id);
    }
  }

  /** One iteration of the worker's loop: query `i` is recorded, committed and run, with
      no fault among the queries before it. */
  method RunStep(store: Store, e: Engine, dataLoad: seq<string>, queries: seq<string>, i: nat,
                 expectedError: string)
    returns (script: string, killed: bool, faulted: bool)
    requires i < |queries| && FirstFault(e, dataLoad, queries) >= i
    requires store.queries == DdlRows(queries, i) && store.result == [CrashMarker]
    modifies store
    ensures script == TrialScript(dataLoad, queries[i])
    ensures faulted <==> FirstFault(e, dataLoad, queries) == i
    ensures killed ==> faulted
    ensures store.committedQueries == DdlRows(queries, i) + [Row(i + 1, queries[i])]
    ensures store.committedResult == [CrashMarker]
    ensures !faulted ==> store.queries == DdlRows(queries, i + 1) && store.result == [CrashMarker]
  {
    DdlRowsIdsBelow(queries, i);
    var internalError;
    script, killed, internalError := RecordAndRun(store, e, dataLoad, queries[i], i + 1, expectedError);
    faulted := killed || internalError;
    if faulted {
      FirstFaultAt(e, dataLoad, queries, i);
    } else {
      FirstFaultNext(e, dataLoad, queries, i);
    }
  }

  /**
   * The loop of `run_queries_until_crash_mp`: records, commits and runs the queries in
   * order and stops at the first that faults, at position `faultAt` (`|queries|` when
   * none does). `killed` says that the fault ended the worker.
   */
  method RunUntilFault(store: Store, e: Engine, dataLoad: seq<string>, queries: seq<string>,
                       expectedError: string)
    returns (executed: seq<string>, faultAt: nat, killed: bool)
    requires store.queries == [] && store.result == [CrashMarker]
    requires store.committedQueries == [] && store.committedResult == []
    modifies store
    ensures faultAt == FirstFault(e, dataLoad, queries)
    ensures faultAt < |queries| ==>
      && store.committedQueries == DdlRows(queries, faultAt) + [Row(faultAt + 1, queries[faultAt])]
      && store.committedResult == [CrashMarker]
      && executed == Scripts(dataLoad, queries[..faultAt + 1])
    ensures faultAt == |queries| ==>
      && !killed
      && store.queries == DdlRows(queries, |queries|) && store.result == [CrashMarker]
      && executed == Scripts(dataLoad, queries)
  {
    executed := [];
    var i := 0;
    killed := false;
    while i < |queries|
      invariant 0 <= i <= |queries| && !killed
      invariant FirstFault(e, dataLoad, queries) >= i
      invariant store.queries == DdlRows(queries, i) && store.result == [CrashMarker]
      invariant executed == Scripts(dataLoad, queries[..i])
    {
      var script, faulted;
      script, killed, faulted := RunStep(store, e, dataLoad, queries, i, expectedError);
      ScriptsSnoc(dataLoad, queries, i);
      executed := executed + [script];
      if faulted {
        return executed, i, killed;
      }
      i := i + 1;
    }
    assert queries[..i] == queries;
    faultAt := i;
  }

  /**
   * `run_queries_until_crash_mp`: writes the placeholder result, then records, commits
   * and runs the queries in order until one faults. When none faults, the result row
   * is deleted and committed. `executed` lists the scripts handed to the engine, in
   * order. `expectedError` is the module-level `expected_error` the driver sets.
   */
  method RunQueriesUntilCrashMp(store: Store, e: Engine, dataLoad: seq<string>, queries: seq<string>,
                                expectedError: string)
    returns (executed: seq<string>)
    requires store.queries == [] && store.result == []
    requires store.committedQueries == [] && store.committedResult == []
    modifies store
    ensures store.committedQueries == CommittedQueries(e, dataLoad, queries)
    ensures store.committedResult == CommittedResult(e, dataLoad, queries)
    ensures executed == Scripts(dataLoad, queries[..Attempted(e, dataLoad, queries)])
  {
    store.InsertResult(CrashMarker);
    var faultAt, killed;
    executed, faultAt, killed := RunUntilFault(store, e, dataLoad, queries, expectedError);
    if faultAt < |queries| {
      if killed {
        return;
      }
    } else {
      assert queries[..faultAt] == queries;
      store.DeleteResult();
      store.Commit();
    }
    store.Close();
  }

  lemma ScriptsSnoc(dataLoad: seq<string>, qs: seq<string>, i: nat)
    requires i < |qs|
    ensures Scripts(dataLoad, qs[..i + 1]) == Scripts(dataLoad, qs[..i]) + [TrialScript(dataLoad, qs[i])]
  {
  }

  /** Ids never decrease along `rows`. */
  predicate SortedById(rows: seq<Row>) {
    forall i, j :: 0 <= i < j < |rows| ==> rows[i].id <= rows[j].id
  }

  /** Rows sorted by id, as `ORDER BY id` returns them (insertion sort, stable). */
  function OrderById(rows: seq<Row>): (r: seq<Row>)
    ensures SortedById(r)
    ensures multiset(r) == multiset(rows)
  {
    if rows == [] then []
    else
      assert rows == [rows[0]] + rows[1..];
      InsertById(rows[0], OrderById(rows[1..]))
  }

  function InsertById(row: Row, sorted: seq<Row>): (r: seq<Row>)
    ensures SortedById(sorted) ==> SortedById(r)
    ensures multiset(r) == multiset(sorted) + multiset{row}
    ensures forall x :: x in r ==> x in sorted || x == row
  {
    if sorted == [] || row.id <= sorted[0].id then
      InsertFront(row, sorted);
      [row] + sorted
    else
      var rest := InsertById(row, sorted[1..]);
      InsertBehind(row, sorted, rest);
      [sorted[0]] + rest
  }

  /** A row no later than the head goes in front. */
  lemma InsertFront(row: Row, sorted: seq<Row>)
    requires sorted == [] || row.id <= sorted[0].id
    ensures SortedById(sorted) ==> SortedById([row] + sorted)
  {
    if SortedById(sorted) {
      forall i, j | 0 <= i < j < |[row] + sorted| ensures ([row] + sorted)[i].id <= ([row] + sorted)[j].id {
        if i == 0 {
          assert row.id <= sorted[0].id <= sorted[j - 1].id;
        }
      }
    }
  }

  /** A row later than the head goes into the tail: the head stays first. */
  lemma InsertBehind(row: Row, sorted: seq<Row>, rest: seq<Row>)
    requires sorted != [] && sorted[0].id < row.id
    requires SortedById(sorted[1..]) ==> SortedById(rest)
    requires multiset(rest) == multiset(sorted[1..]) + multiset{row}
    requires forall x :: x in rest ==> x in sorted[1..] || x == row
    ensures SortedById(sorted) ==> SortedById([sorted[0]] + rest)
    ensures multiset([sorted[0]] + rest) == multiset(sorted) + multiset{row}
    ensures forall x :: x in [sorted[0]] + rest ==> x in sorted || x == row
  {
    assert sorted == [sorted[0]] + sorted[1..];
    if SortedById(sorted) {
      assert SortedById(sorted[1..]);
      forall k | 0 <= k < |rest| ensures sorted[0].id <= rest[k].id {
        assert rest[k] in rest;
      }
      SortedCons(sorted[0], rest);
    }
  }

  /** A row no later than every row of a sorted list goes in front of it. */
  lemma SortedCons(head: Row, rest: seq<Row>)
    requires SortedById(rest)
    requires forall k :: 0 <= k < |rest| ==> head.id <= rest[k].id
    ensures SortedById([head] + rest)
  {
    var r := [head] + rest;
    forall i, j | 0 <= i < j < |r| ensures r[i].id <= r[j].id {
      if i > 0 {
        assert r[i] == rest[i - 1] && r[j] == rest[j - 1];
      } else {
        assert r[j] == rest[j - 1];
      }
    }
  }

  /** The reader of `run_queries_until_crash`: no `result` row means "no fault";
      `assert len(results) == 1` fails on more than one row. */
  function ReadBack(rows: seq<Row>, results: seq<string>): (r: Result<Outcome>)
    ensures r.Success? <==> |results| <= 1
    ensures r.Success? ==> (r.value.error.None? <==> results == [])
    ensures results == [] ==> r == Success(Outcome(None, None))
    ensures r.Success? && results != [] ==> r.value == Outcome(Some(Texts(OrderById(rows))), Some(results[0]))
  {
    if |results| == 0 then Success(Outcome(None, None))
    else if |results| != 1 then Failure("AssertionError")
    else Success(Outcome(Some(Texts(OrderById(rows))), Some(results[0])))
  }

  /** `run_queries_until_crash`: runs the worker on a fresh store and reads back what
      it committed, however it stopped. */
  method RunQueriesUntilCrash(e: Engine, dataLoad: seq<string>, queries: seq<string>, expectedError: string)
    returns (o: Outcome)
    ensures o == HarnessResult(e, dataLoad, queries)
  {
    var store := new Store();
    var _ := RunQueriesUntilCrashMp(store, e, dataLoad, queries, expectedError);
    store.Close();
    var read := ReadBack(store.queries, store.result);
    ReadBackCommitted(e, dataLoad, queries);
    o := read.value;
  }

  /** Reading back what the worker committed yields the closed form. */
  lemma ReadBackCommitted(e: Engine, dataLoad: seq<string>, qs: seq<string>)
    ensures ReadBack(CommittedQueries(e, dataLoad, qs), CommittedResult(e, dataLoad, qs))
         == Success(HarnessResult(e, dataLoad, qs))
  {
    var k := FirstFault(e, dataLoad, qs);
    var rows := CommittedQueries(e, dataLoad, qs);
    if k < |qs| {
      assert CommittedResult(e, dataLoad, qs) == [CrashMarker];
      calc {
        ReadBack(rows, [CrashMarker]);
        Success(Outcome(Some(Texts(OrderById(rows))), Some(CrashMarker)));
        { CommittedQueriesOrdered(e, dataLoad, qs); }
        Success(Outcome(Some(Texts(rows)), Some(CrashMarker)));
        { assert Texts(DdlRows(qs, k) + [Row(k + 1, qs[k])]) == Texts(DdlRows(qs, k)) + [qs[k]]; }
        Success(HarnessResult(e, dataLoad, qs));
      }
    } else {
      assert CommittedResult(e, dataLoad, qs) == [];
    }
  }

  /** The statements of a query log: split on `;\n`, empty pieces dropped. */
  function LogQueries(queryLog: string): (r: seq<string>)
    ensures forall q :: q in r ==> q != []
    // the pieces of the cleaned log, in order, with every non-empty piece kept
    ensures IsSubsequence(r, Split(InitialCleanup(queryLog), ";\n"))
    ensures forall q :: q != [] ==> multiset(r)[q] == multiset(Split(InitialCleanup(queryLog), ";\n"))[q]
  {
    NonEmpty(Split(InitialCleanup(queryLog), ";\n"))
  }

  function NonEmpty(xs: seq<string>): (r: seq<string>)
    ensures forall q :: q in r ==> q != []
    ensures IsSubsequence(r, xs)
    // every non-empty fragment is kept, as often as it occurs
    ensures forall q :: q != [] ==> multiset(r)[q] == multiset(xs)[q]
  {
    if xs == [] then SubsequenceRefl(xs); []
    else
      var rest := NonEmpty(xs[1..]);
      NonEmptySubsequence(xs, rest);
      assert xs == [xs[0]] + xs[1..];
      (if xs[0] == [] then [] else [xs[0]]) + rest
  }

  /** `cleanup_irrelevant_queries`: the harness on the cleaned-up log, always with an
      empty load. */
  method CleanupIrrelevantQueries(e: Engine, queryLog: string, expectedError: string)
    returns (o: Outcome)
    ensures o == HarnessResult(e, [""], LogQueries(queryLog))
  {
    var queries := LogQueries(queryLog);
    o := RunQueriesUntilCrash(e, [""], queries, expectedError);
  }

  // ---------------------------------------------------------------------
  // Lemmas

  /** `rows` are rows of `qs`: each id is a 1-based position of its text, and ids
      strictly increase. */
  ghost predicate RecordsOf(rows: seq<Row>, qs: seq<string>) {
    && (forall i :: 0 <= i < |rows| ==> 1 <= rows[i].id <= |qs| && rows[i].text == qs[rows[i].id - 1])
    && (forall i, j :: 0 <= i < j < |rows| ==> rows[i].id < rows[j].id)
  }

  lemma RecordsSnoc(rows: seq<Row>, r: Row, qs: seq<string>)
    requires RecordsOf(rows, qs)
    requires forall x :: x in rows ==> x.id < r.id
    requires 1 <= r.id <= |qs| && qs[r.id - 1] == r.text
    ensures RecordsOf(rows + [r], qs)
  {
    var s := rows + [r];
    forall i, j | 0 <= i < j < |s| ensures s[i].id < s[j].id {
      if j == |rows| {
        assert s[i] in rows;
      }
    }
  }

  lemma NonEmptySubsequence(xs: seq<string>, rest: seq<string>)
    requires xs != [] && IsSubsequence(rest, xs[1..])
    ensures IsSubsequence((if xs[0] == [] then [] else [xs[0]]) + rest, xs)
  {
    var f :| Embeds(rest, xs[1..], f);
    var shifted := seq(|f|, i requires 0 <= i < |f| => f[i] + 1);
    if xs[0] == [] {
      assert Embeds([] + rest, xs, shifted);
    } else {
      assert Embeds([xs[0]] + rest, xs, [0] + shifted);
    }
  }

  /** The DDL rows are rows of `qs` with ids at most `n`. */
  lemma {:induction false} DdlRowsIdsBelow(qs: seq<string>, n: nat)
    requires n <= |qs|
    ensures RecordsOf(DdlRows(qs, n), qs)
    ensures forall r :: r in DdlRows(qs, n) ==> r.id <= n
  {
    if n > 0 {
      DdlRowsIdsBelow(qs, n - 1);
      if IsDdlQuery(qs[n - 1]) {
        RecordsSnoc(DdlRows(qs, n - 1), Row(n, qs[n - 1]), qs);
      }
    }
  }

  /** Deleting a fresh id removes exactly the row just appended. */
  lemma {:induction false} WithoutNewId(rows: seq<Row>, q: string, id: int)
    requires forall r :: r in rows ==> r.id < id
    ensures WithoutId(rows + [Row(id, q)], id) == rows
  {
    if rows == [] {
      assert [Row(id, q)][1..] == [];
    } else {
      assert (rows + [Row(id, q)])[1..] == rows[1..] + [Row(id, q)];
      WithoutNewId(rows[1..], q, id);
      assert [rows[0]] + rows[1..] == rows;
    }
  }

  /** Rows whose ids already increase come back from `ORDER BY id` unchanged. */
  lemma {:induction false} OrderByIdSorted(rows: seq<Row>)
    requires forall i, j :: 0 <= i < j < |rows| ==> rows[i].id < rows[j].id
    ensures OrderById(rows) == rows
  {
    if rows != [] {
      OrderByIdSorted(rows[1..]);
      assert [rows[0]] + rows[1..] == rows;
    }
  }

  /** The committed rows are rows of the input, in id order. */
  lemma CommittedQueriesOrdered(e: Engine, dataLoad: seq<string>, qs: seq<string>)
    ensures RecordsOf(CommittedQueries(e, dataLoad, qs), qs)
    ensures OrderById(CommittedQueries(e, dataLoad, qs)) == CommittedQueries(e, dataLoad, qs)
  {
    var k := FirstFault(e, dataLoad, qs);
    var rows := CommittedQueries(e, dataLoad, qs);
    DdlRowsIdsBelow(qs, if k < |qs| then k else |qs|);
    if k < |qs| {
      RecordsSnoc(DdlRows(qs, k), Row(k + 1, qs[k]), qs);
    }
    OrderByIdSorted(rows);
  }

  lemma RecordsSubsequence(rows: seq<Row>, qs: seq<string>)
    requires RecordsOf(rows, qs)
    ensures IsSubsequence(Texts(rows), qs)
  {
    var idx := seq(|rows|, i requires 0 <= i < |rows| => (rows[i].id - 1) as nat);
    assert Embeds(Texts(rows), qs, idx);
  }

  /** The surviving queries are an order-preserving subsequence of the input, never
      longer. */
  lemma HarnessSubsequence(e: Engine, dataLoad: seq<string>, qs: seq<string>)
    ensures var o := HarnessResult(e, dataLoad, qs);
      o.queries.Some? ==> IsSubsequence(o.queries.value, qs) && |o.queries.value| <= |qs|
  {
    var k := FirstFault(e, dataLoad, qs);
    if k < |qs| {
      CommittedQueriesOrdered(e, dataLoad, qs);
      var rows := CommittedQueries(e, dataLoad, qs);
      RecordsSubsequence(rows, qs);
      assert Texts(rows) == Texts(DdlRows(qs, k)) + [qs[k]];
      SubsequenceLength(Texts(rows), qs);
    }
  }

  /** `(None, None)` comes back exactly when no query of the sequence faults; otherwise
      both parts are present. */
  lemma HarnessNoneIffNoFault(e: Engine, dataLoad: seq<string>, qs: seq<string>)
    ensures var o := HarnessResult(e, dataLoad, qs);
      && (o.queries.None? <==> o.error.None?)
      && (o.error.None? <==> forall j :: 0 <= j < |qs| ==> !Faults(e, dataLoad, qs[j]))
  {
  }

  lemma {:induction false} DdlRowsKeepsDdl(qs: seq<string>, n: nat, j: nat)
    requires j < n <= |qs|
    ensures IsDdlQuery(qs[j]) ==> qs[j] in Texts(DdlRows(qs, n))
    ensures forall t :: t in Texts(DdlRows(qs, n)) ==> IsDdlQuery(t)
  {
    var rows := DdlRows(qs, n);
    var prev := DdlRows(qs, n - 1);
    if j < n - 1 {
      DdlRowsKeepsDdl(qs, n - 1, j);
      if IsDdlQuery(qs[j]) {
        var t := Texts(prev);
        var p :| 0 <= p < |t| && t[p] == qs[j];
        assert Texts(rows)[p] == qs[j];
      }
    } else if IsDdlQuery(qs[j]) {
      assert Texts(rows)[|rows| - 1] == qs[j];
    }
    if n - 1 > 0 {
      DdlRowsKeepsDdl(qs, n - 1, 0);
    }
    forall t | t in Texts(rows) ensures IsDdlQuery(t) {
      var p :| 0 <= p < |Texts(rows)| && Texts(rows)[p] == t;
      if p < |prev| {
        assert Texts(prev)[p] == t;
      }
    }
  }

  /** On a fault, every DDL query run before it is kept, the faulting query comes last,
      and nothing else survives. */
  lemma HarnessKeepsDdl(e: Engine, dataLoad: seq<string>, qs: seq<string>)
    ensures var o := HarnessResult(e, dataLoad, qs);
      var k := FirstFault(e, dataLoad, qs);
      o.queries.Some? ==>
        && o.queries.value[|o.queries.value| - 1] == qs[k]
        && (forall j :: 0 <= j < k && IsDdlQuery(qs[j]) ==> qs[j] in o.queries.value)
        && (forall t :: t in o.queries.value[..|o.queries.value| - 1] ==> IsDdlQuery(t))
  {
    var o := HarnessResult(e, dataLoad, qs);
    var k := FirstFault(e, dataLoad, qs);
    if o.queries.Some? {
      var kept := Texts(DdlRows(qs, k));
      assert o.queries.value[..|o.queries.value| - 1] == kept;
      forall j | 0 <= j < k && IsDdlQuery(qs[j]) ensures qs[j] in o.queries.value {
        DdlRowsKeepsDdl(qs, k, j);
      }
      if k > 0 {
        DdlRowsKeepsDdl(qs, k, 0);
      }
    }
  }

  /** The exception text written by `UPDATE result` is never committed: whenever a
      fault is reported, the error read back is the placeholder. */
  lemma HarnessErrorIsMarker(e: Engine, dataLoad: seq<string>, qs: seq<string>)
    ensures HarnessResult(e, dataLoad, qs).error.Some? ==>
      HarnessResult(e, dataLoad, qs).error.value == CrashMarker
  {
  }
}
