/**
 * Log reduction and the entry points: `reduce_query_log_query`,
 * `reduce_multi_statement` and `reduce_query_log`
 * (scripts/reduce_sql.py:185-262), and the choice the driver makes between
 * statement and log reduction (scripts/reduce_sql.py:290-307).
 *
 * As in `StatementReducer`, elapsed time is counted in trials; here a trial is
 * one harness run.
 */
module LogReducer {
  import opened Wrappers
  import opened Text
  import opened Oracle
  import opened ShrinkOracle
  import opened Statements
  import opened Sequences
  import opened CrashHarness
  import opened StatementReducer

  /** The default `max_time_seconds` of `reduce_query_log`. */
  const DefaultMaxTime: nat := 300

  const CouldNotReproduce: string := "Could not find expected error - no error encountered"

  /** No candidate for slot `i` (other than its current text), put in place of it,
      makes the harness report a fault on the whole list with an empty load. */
  predicate SlotMinimal(e: Engine, qs: seq<string>, i: nat)
    requires i < |qs|
  {
    var out := e.run(ReduceQuery(qs[i]));
    && out.returnCode == 0
    && forall c :: c in Candidates(out.stdout) && c != qs[i] ==> !ReproducesFault(e, [""], qs[i := c])
  }

  /** Deleting any single query loses the fault. */
  predicate NoDeletionReproduces(e: Engine, dataLoad: seq<string>, qs: seq<string>) {
    forall j :: 0 <= j < |qs| ==> !ReproducesFault(e, dataLoad, RemoveAt(qs, j))
  }

  /** A round that tries every candidate of `s` without a fault leaves slot `i`
      minimal once `s` is in it. */
  lemma SlotMinimalAfterRound(e: Engine, qs: seq<string>, i: nat, s: string)
    requires i < |qs|
    requires e.run(ReduceQuery(s)).returnCode == 0
    requires forall c :: c in Candidates(e.run(ReduceQuery(s)).stdout) && c != s ==>
      !ReproducesFault(e, [""], qs[i := c])
    ensures SlotMinimal(e, qs[i := s], i)
  {
    var qs' := qs[i := s];
    forall c | c in Candidates(e.run(ReduceQuery(s)).stdout) && c != s
      ensures !ReproducesFault(e, [""], qs'[i := c])
    {
      assert qs'[i := c] == qs[i := c];
    }
  }

  /** In a minimal slot, no candidate other than the current text is accepted. */
  lemma SlotMinimalRejects(e: Engine, qs: seq<string>, i: nat, c: string)
    requires i < |qs|
    requires e.run(ReduceQuery(qs[i])).returnCode == 0
    requires c in Candidates(e.run(ReduceQuery(qs[i])).stdout) && c != qs[i]
    requires ReproducesFault(e, [""], qs[i := c])
    ensures !SlotMinimal(e, qs, i)
  {
  }

  /** The acceptance test of `reduce_query_log_query` for slot `i`: the list with the
      candidate in that slot makes the harness report a fault with an empty load. */
  function SlotAccepts(e: Engine, qs: seq<string>, i: nat): string -> bool
    requires i < |qs|
  {
    c => ReproducesFault(e, [""], qs[i := c])
  }

  /** `reduce_query_log_query` on slot `i` of `qs`, as a function. */
  function SlotRun(e: Engine, qs: seq<string>, i: nat, elapsed: nat, maxTimeSeconds: nat): (r: (Result<string>, nat))
    requires i < |qs|
    ensures r.0.Success? ==> r.0.value == qs[i] || ReproducesFault(e, [""], qs[i := r.0.value])
    ensures elapsed <= r.1 && (elapsed <= maxTimeSeconds + 1 ==> r.1 <= maxTimeSeconds + 1)
  {
    Descent(e, SlotAccepts(e, qs, i), qs[i], elapsed, maxTimeSeconds)
  }

  /**
   * One round of `reduce_query_log_query`'s inner loop: the candidates are tried in
   * order, skipping the current text, until one makes the harness report a fault on
   * the list with it in slot `queryIndex`, or the budget check fails. The source keeps
   * the trial list in a variable that it updates slot by slot; its value at each trial
   * is `queries[queryIndex := candidate]`.
   */
  method TryCandidates(e: Engine, queries: seq<string>, queryIndex: nat, sqlQuery: string,
                       candidates: seq<string>, start: nat, maxTimeSeconds: nat, expectedError: string)
    returns (found: bool, next: string, elapsed: nat)
    requires queryIndex < |queries|
    ensures (found, next, elapsed)
         == CandidateRound(SlotAccepts(e, queries, queryIndex), sqlQuery, candidates, 0, start, maxTimeSeconds)
    ensures found ==> next != sqlQuery && next in candidates
    // the accepted candidate is the first one, in order, whose replacement faults
    ensures found ==> exists k :: 0 <= k < |candidates| && candidates[k] == next &&
                        (forall j :: 0 <= j < k && candidates[j] != sqlQuery ==>
                           !ReproducesFault(e, [""], queries[queryIndex := candidates[j]]))
    ensures found ==> Remaining(elapsed, maxTimeSeconds) < Remaining(start, maxTimeSeconds)
    ensures found ==> ReproducesFault(e, [""], queries[queryIndex := next])
    ensures !found ==> next == sqlQuery
    ensures !found && !Expired(elapsed, maxTimeSeconds) ==>
      forall c :: c in candidates && c != sqlQuery ==> !ReproducesFault(e, [""], queries[queryIndex := c])
    ensures start <= elapsed && (start <= maxTimeSeconds + 1 ==> elapsed <= maxTimeSeconds + 1)
  {
    SlotRound(e, queries, queryIndex, sqlQuery, candidates, start, maxTimeSeconds);
    found, next, elapsed := false, sqlQuery, start;
    var i := 0;
    while i < |candidates|
      invariant 0 <= i <= |candidates|
      invariant start <= elapsed && (start <= maxTimeSeconds + 1 ==> elapsed <= maxTimeSeconds + 1)
      invariant !found && next == sqlQuery
      invariant CandidateRound(SlotAccepts(e, queries, queryIndex), sqlQuery, candidates, i, elapsed, maxTimeSeconds)
             == CandidateRound(SlotAccepts(e, queries, queryIndex), sqlQuery, candidates, 0, start, maxTimeSeconds)
    {
      var reduceCandidate := candidates[i];
      if reduceCandidate == sqlQuery {
        i := i + 1;
        continue;
      }
      if Expired(elapsed, maxTimeSeconds) {
        break;
      }
      var newQueryList := queries[queryIndex := reduceCandidate];
      elapsed := elapsed + 1;
      var outcome := RunQueriesUntilCrash(e, [""], newQueryList, expectedError);
      assert SlotAccepts(e, queries, queryIndex)(reduceCandidate) <==> outcome.error.Some?;
      if outcome.error.Some? {
        found, next := true, reduceCandidate;
        break;
      }
      i := i + 1;
    }
  }

  /** The round of `reduce_query_log_query` from the first candidate, stated with the
      harness: it accepts the first candidate whose replacement faults, and one that
      ends without acceptance before the budget runs out rejected every candidate. */
  lemma SlotRound(e: Engine, queries: seq<string>, queryIndex: nat, sqlQuery: string, candidates: seq<string>,
                  start: nat, maxTimeSeconds: nat)
    requires queryIndex < |queries|
    ensures var r := CandidateRound(SlotAccepts(e, queries, queryIndex), sqlQuery, candidates, 0, start, maxTimeSeconds);
      && (r.0 ==> (exists k :: 0 <= k < |candidates| && candidates[k] == r.1 &&
                    (forall j :: 0 <= j < k && candidates[j] != sqlQuery ==>
                       !ReproducesFault(e, [""], queries[queryIndex := candidates[j]]))))
      && (r.0 ==> ReproducesFault(e, [""], queries[queryIndex := r.1]))
      && (!r.0 && !Expired(r.2, maxTimeSeconds) ==>
            forall c :: c in candidates && c != sqlQuery ==> !ReproducesFault(e, [""], queries[queryIndex := c]))
  {
    var accept := SlotAccepts(e, queries, queryIndex);
    var r := CandidateRound(accept, sqlQuery, candidates, 0, start, maxTimeSeconds);
    RoundAccepts(accept, sqlQuery, candidates, 0, start, maxTimeSeconds);
    RoundExhausts(accept, sqlQuery, candidates, 0, start, maxTimeSeconds);
    if r.0 {
      var k :| 0 <= k < |candidates| && candidates[k] == r.1
               && r.2 == start + Others(candidates[0..k + 1], sqlQuery)
               && (forall j :: 0 <= j < k && candidates[j] != sqlQuery ==> !accept(candidates[j]));
      SlotRejections(e, queries, queryIndex, sqlQuery, candidates, k);
    } else if !Expired(r.2, maxTimeSeconds) {
      SlotRejections(e, queries, queryIndex, sqlQuery, candidates, |candidates|);
      forall c | c in candidates && c != sqlQuery
        ensures !ReproducesFault(e, [""], queries[queryIndex := c])
      {
        var j :| 0 <= j < |candidates| && candidates[j] == c;
      }
    }
  }

  /** Candidates the slot's acceptance test rejects are those whose replacement the
      harness does not report a fault for. */
  lemma SlotRejections(e: Engine, queries: seq<string>, queryIndex: nat, sqlQuery: string,
                       candidates: seq<string>, n: nat)
    requires queryIndex < |queries| && n <= |candidates|
    requires forall j :: 0 <= j < n && candidates[j] != sqlQuery ==> !SlotAccepts(e, queries, queryIndex)(candidates[j])
    ensures forall j :: 0 <= j < n && candidates[j] != sqlQuery ==>
      !ReproducesFault(e, [""], queries[queryIndex := candidates[j]])
  {
  }

  /**
   * `reduce_query_log_query`: shrinks the query in slot `queryIndex`, replaying the
   * whole list through the harness (always with the load `[""]`) for each candidate,
   * and accepting the first candidate for which any fault is reported; it repeats from
   * the accepted candidate until a round accepts none. `start` is the time already
   * spent when it is called.
   */
  method ReduceQueryLogQuery(start: nat, e: Engine, queries: seq<string>, queryIndex: nat,
                             maxTimeSeconds: nat, expectedError: string)
    returns (r: Result<string>, elapsed: nat)
    requires queryIndex < |queries|
    ensures (r, elapsed) == SlotRun(e, queries, queryIndex, start, maxTimeSeconds)
    ensures r.Success? ==>
      r.value == queries[queryIndex] || ReproducesFault(e, [""], queries[queryIndex := r.value])
    ensures r.Failure? ==> r.error == FailedToReduce
    ensures start <= elapsed && (start <= maxTimeSeconds + 1 ==> elapsed <= maxTimeSeconds + 1)
    ensures r.Success? && !Expired(elapsed, maxTimeSeconds) ==>
      SlotMinimal(e, queries[queryIndex := r.value], queryIndex)
    ensures SlotMinimal(e, queries, queryIndex) ==> r == Success(queries[queryIndex])
    // the slot's text does not grow when the oracle never lengthens
    ensures OracleNeverLengthens(e) && r.Success? ==> |r.value| <= |queries[queryIndex]|
  {
    elapsed := start;
    var sqlQuery := queries[queryIndex];
    while true
      invariant sqlQuery == queries[queryIndex] || ReproducesFault(e, [""], queries[queryIndex := sqlQuery])
      invariant start <= elapsed && (start <= maxTimeSeconds + 1 ==> elapsed <= maxTimeSeconds + 1)
      invariant SlotMinimal(e, queries, queryIndex) ==> sqlQuery == queries[queryIndex]
      invariant OracleNeverLengthens(e) ==> |sqlQuery| <= |queries[queryIndex]|
      invariant Descent(e, SlotAccepts(e, queries, queryIndex), sqlQuery, elapsed, maxTimeSeconds)
             == SlotRun(e, queries, queryIndex, start, maxTimeSeconds)
      decreases Remaining(elapsed, maxTimeSeconds)
    {
      var reduceCandidates := GetReducedSql(e, sqlQuery);
      if reduceCandidates.Failure? {
        return Failure(reduceCandidates.error), elapsed;
      }
      var found, next, after := TryCandidates(e, queries, queryIndex, sqlQuery, reduceCandidates.value,
                                              elapsed, maxTimeSeconds, expectedError);
      if !found {
        elapsed := after;
        if !Expired(elapsed, maxTimeSeconds) {
          SlotMinimalAfterRound(e, queries, queryIndex, sqlQuery);
        }
        break;
      }
      if sqlQuery == queries[queryIndex] {
        SlotMinimalRejects(e, queries, queryIndex, next);
      }
      if OracleNeverLengthens(e) {
        assert NeverLengthens(e, sqlQuery);
      }
      elapsed, sqlQuery := after, next;
    }
    r := Success(sqlQuery);
  }

  /**
   * The first phase of `reduce_query_log`, from cursor `i` with `elapsed` trials spent:
   * the query under the cursor is deleted when the harness still reports a fault
   * without it, and the cursor advances otherwise; the phase ends at the end of the
   * list or when the budget check fails. Yields the list left and the trials spent.
   */
  function DeletionRun(e: Engine, dataLoad: seq<string>, qs: seq<string>, i: nat, elapsed: nat,
                       maxTimeSeconds: nat): (r: (seq<string>, nat))
    ensures |r.0| <= |qs|
    // no trial starts once the budget check fails
    ensures elapsed <= r.1 && (elapsed <= maxTimeSeconds + 1 ==> r.1 <= maxTimeSeconds + 1)
    decreases |qs| - i
  {
    if i >= |qs| || Expired(elapsed, maxTimeSeconds) then (qs, elapsed)
    else if ReproducesFault(e, dataLoad, RemoveAt(qs, i)) then
      DeletionRun(e, dataLoad, RemoveAt(qs, i), i, elapsed + 1, maxTimeSeconds)
    else DeletionRun(e, dataLoad, qs, i + 1, elapsed + 1, maxTimeSeconds)
  }

  /** The deletion phase keeps a subsequence of the list that is the list itself or
      still faults. */
  lemma {:induction false} DeletionRunKeeps(e: Engine, dataLoad: seq<string>, qs: seq<string>, i: nat,
                                            elapsed: nat, maxTimeSeconds: nat)
    ensures IsSubsequence(DeletionRun(e, dataLoad, qs, i, elapsed, maxTimeSeconds).0, qs)
    ensures var kept := DeletionRun(e, dataLoad, qs, i, elapsed, maxTimeSeconds).0;
      kept == qs || ReproducesFault(e, dataLoad, kept)
    decreases |qs| - i
  {
    if i >= |qs| || Expired(elapsed, maxTimeSeconds) {
      SubsequenceRefl(qs);
    } else if ReproducesFault(e, dataLoad, RemoveAt(qs, i)) {
      var rest := RemoveAt(qs, i);
      var kept := DeletionRun(e, dataLoad, rest, i, elapsed + 1, maxTimeSeconds).0;
      assert kept == DeletionRun(e, dataLoad, qs, i, elapsed, maxTimeSeconds).0;
      DeletionRunKeeps(e, dataLoad, rest, i, elapsed + 1, maxTimeSeconds);
      RemoveAtSubsequence(qs, i);
      SubsequenceTrans(kept, rest, qs);
    } else {
      DeletionRunKeeps(e, dataLoad, qs, i + 1, elapsed + 1, maxTimeSeconds);
    }
  }

  /** When no single deletion faults, the deletion phase deletes nothing. */
  lemma {:induction false} DeletionRunNone(e: Engine, dataLoad: seq<string>, qs: seq<string>, i: nat,
                                           elapsed: nat, maxTimeSeconds: nat)
    requires NoDeletionReproduces(e, dataLoad, qs)
    ensures DeletionRun(e, dataLoad, qs, i, elapsed, maxTimeSeconds).0 == qs
    decreases |qs| - i
  {
    if i < |qs| && !Expired(elapsed, maxTimeSeconds) {
      assert !ReproducesFault(e, dataLoad, RemoveAt(qs, i));
      DeletionRunNone(e, dataLoad, qs, i + 1, elapsed + 1, maxTimeSeconds);
    }
  }

  /** When some deletion at or after the cursor faults and the budget never runs out,
      the deletion phase deletes something. */
  lemma {:induction false} DeletionRunShrinks(e: Engine, dataLoad: seq<string>, qs: seq<string>, i: nat,
                                              elapsed: nat, maxTimeSeconds: nat, j: nat)
    requires i <= j < |qs| && ReproducesFault(e, dataLoad, RemoveAt(qs, j))
    requires !Expired(DeletionRun(e, dataLoad, qs, i, elapsed, maxTimeSeconds).1, maxTimeSeconds)
    ensures |DeletionRun(e, dataLoad, qs, i, elapsed, maxTimeSeconds).0| < |qs|
    decreases |qs| - i
  {
    if !ReproducesFault(e, dataLoad, RemoveAt(qs, i)) {
      DeletionRunShrinks(e, dataLoad, qs, i + 1, elapsed + 1, maxTimeSeconds, j);
    }
  }

  /**
   * The first phase of `reduce_query_log`: a cursor walks the list; the query under it
   * is deleted when the harness still reports a fault without it, and the cursor
   * advances otherwise.
   */
  method DeletionPass(e: Engine, queries: seq<string>, dataLoad: seq<string>, maxTimeSeconds: nat,
                      expectedError: string)
    returns (kept: seq<string>, elapsed: nat)
    ensures (kept, elapsed) == DeletionRun(e, dataLoad, queries, 0, 0, maxTimeSeconds)
    ensures IsSubsequence(kept, queries) && |kept| <= |queries|
    ensures kept == queries || ReproducesFault(e, dataLoad, kept)
    ensures NoDeletionReproduces(e, dataLoad, queries) ==> kept == queries
    // a pass the budget does not cut short deletes something whenever a deletion faults
    ensures !Expired(elapsed, maxTimeSeconds) && !NoDeletionReproduces(e, dataLoad, queries) ==>
      |kept| < |queries|
    ensures elapsed <= maxTimeSeconds + 1
  {
    elapsed := 0;
    kept := queries;
    var currentIndex := 0;
    while currentIndex < |kept|
      invariant currentIndex <= |kept|
      invariant DeletionRun(e, dataLoad, kept, currentIndex, elapsed, maxTimeSeconds)
             == DeletionRun(e, dataLoad, queries, 0, 0, maxTimeSeconds)
      decreases |kept| - currentIndex
    {
      if Expired(elapsed, maxTimeSeconds) {
        break;
      }
      var newQueries := RemoveAt(kept, currentIndex);
      elapsed := elapsed + 1;
      var outcome := RunQueriesUntilCrash(e, dataLoad, newQueries, expectedError);
      if outcome.error.None? {
        currentIndex := currentIndex + 1;
      } else {
        kept := newQueries;
      }
    }
    DeletionScan(e, dataLoad, queries, maxTimeSeconds);
  }

  /** What a whole deletion scan, started at position 0 and time 0, leaves behind. */
  lemma DeletionScan(e: Engine, dataLoad: seq<string>, queries: seq<string>, maxTimeSeconds: nat)
    ensures var run := DeletionRun(e, dataLoad, queries, 0, 0, maxTimeSeconds);
      && IsSubsequence(run.0, queries)
      && (run.0 == queries || ReproducesFault(e, dataLoad, run.0))
      && (NoDeletionReproduces(e, dataLoad, queries) ==> run.0 == queries)
      && (!Expired(run.1, maxTimeSeconds) && !NoDeletionReproduces(e, dataLoad, queries) ==>
            |run.0| < |queries|)
  {
    DeletionRunKeeps(e, dataLoad, queries, 0, 0, maxTimeSeconds);
    var run := DeletionRun(e, dataLoad, queries, 0, 0, maxTimeSeconds);
    if NoDeletionReproduces(e, dataLoad, queries) {
      DeletionRunNone(e, dataLoad, queries, 0, 0, maxTimeSeconds);
    } else if !Expired(run.1, maxTimeSeconds) {
      var j :| 0 <= j < |queries| && ReproducesFault(e, dataLoad, RemoveAt(queries, j));
      DeletionRunShrinks(e, dataLoad, queries, 0, 0, maxTimeSeconds, j);
    }
  }

  /** Every non-DDL slot `j` before `n` was left minimal: with the slots up to `j` as in
      `current` and the later ones as in `queries`, as they stood when `j` was shrunk. */
  ghost predicate ShrunkBefore(e: Engine, queries: seq<string>, current: seq<string>, n: nat)
    requires |current| == |queries| && n <= |queries|
  {
    forall j :: 0 <= j < n ==> SlotShrunk(e, queries, current, j)
  }

  /** Slot `j` is DDL, or is minimal with the slots up to `j` as in `current` and the
      later ones as in `queries`. */
  ghost predicate SlotShrunk(e: Engine, queries: seq<string>, current: seq<string>, j: nat)
    requires |current| == |queries| && j < |queries|
  {
    !IsDdlQuery(queries[j]) ==> SlotMinimal(e, current[..j + 1] + queries[j + 1..], j)
  }

  /** A step that changes only slot `i`, and leaves it minimal unless it is DDL, extends
      the shrunk prefix by one slot. */
  lemma ShrunkBeforeStep(e: Engine, queries: seq<string>, current: seq<string>, next: seq<string>, i: nat)
    requires |current| == |queries| && |next| == |queries| && i < |queries|
    requires forall j :: 0 <= j < |queries| && j != i ==> next[j] == current[j]
    requires ShrunkBefore(e, queries, current, i)
    requires !IsDdlQuery(queries[i]) ==> SlotMinimal(e, next[..i + 1] + queries[i + 1..], i)
    ensures ShrunkBefore(e, queries, next, i + 1)
  {
    forall j | 0 <= j < i
      ensures SlotShrunk(e, queries, next, j)
    {
      assert SlotShrunk(e, queries, current, j);
      SplicedPrefixAgree(current, next, queries, j + 1);
    }
    assert SlotShrunk(e, queries, next, i);
  }

  /** Two lists that agree below `n` give the same list once their first `n` entries
      are put in front of the same tail. */
  lemma SplicedPrefixAgree(a: seq<string>, b: seq<string>, tail: seq<string>, n: nat)
    requires n <= |a| && n <= |b| && n <= |tail|
    requires forall k :: 0 <= k < n ==> a[k] == b[k]
    ensures a[..n] + tail[n..] == b[..n] + tail[n..]
  {
    assert a[..n] == b[..n];
  }

  /**
   * The second phase of `reduce_query_log`, as a function, from slot `i` with `elapsed`
   * trials spent: DDL slots are skipped; the budget check precedes every other slot,
   * which is replaced by what `reduce_query_log_query` makes of it.
   */
  function ShrinkRun(e: Engine, qs: seq<string>, i: nat, elapsed: nat, maxTimeSeconds: nat)
    : (r: (Result<seq<string>>, nat))
    ensures r.0.Success? ==> |r.0.value| == |qs|
    ensures r.0.Success? ==> forall j :: 0 <= j < |qs| && IsDdlQuery(qs[j]) ==> r.0.value[j] == qs[j]
    ensures elapsed <= r.1 && (elapsed <= maxTimeSeconds + 1 ==> r.1 <= maxTimeSeconds + 1)
    decreases |qs| - i
  {
    if i >= |qs| then (Success(qs), elapsed)
    else if IsDdlQuery(qs[i]) then ShrinkRun(e, qs, i + 1, elapsed, maxTimeSeconds)
    else if Expired(elapsed, maxTimeSeconds) then (Success(qs), elapsed)
    else
      var slot := SlotRun(e, qs, i, elapsed, maxTimeSeconds);
      if slot.0.Failure? then (Failure(slot.0.error), slot.1)
      else ShrinkRun(e, qs[i := slot.0.value], i + 1, slot.1, maxTimeSeconds)
  }

  /** `reduce_query_log`, as a function: the deletion phase, then the shrink phase on
      the list it leaves, with the trials it spent. */
  function QueryLogRun(e: Engine, dataLoad: seq<string>, queries: seq<string>, maxTimeSeconds: nat)
    : (r: (Result<seq<string>>, nat))
    ensures r.0.Success? ==> |r.0.value| <= |queries|
    ensures r.1 <= maxTimeSeconds + 1
  {
    var deletion := DeletionRun(e, dataLoad, queries, 0, 0, maxTimeSeconds);
    ShrinkRun(e, deletion.0, 0, deletion.1, maxTimeSeconds)
  }

  /** A list whose entries from `n` on are those of `tail` is its own first `n` entries
      followed by the rest of `tail`. */
  lemma SplicedTailAgree(s: seq<string>, tail: seq<string>, n: nat)
    requires n <= |s| == |tail|
    requires forall k :: n <= k < |s| ==> s[k] == tail[k]
    ensures s[..n] + tail[n..] == s
  {
    assert tail[n..] == s[n..];
  }

  /**
   * One iteration of the second phase of `reduce_query_log`: slot `i` of `current` is
   * shrunk by `reduce_query_log_query` and the result is stored in it. The slots from
   * `i` on still hold the text they had before the phase.
   */
  method ShrinkSlot(e: Engine, queries: seq<string>, current: seq<string>, i: nat, start: nat,
                    maxTimeSeconds: nat, expectedError: string)
    returns (r: Result<seq<string>>, elapsed: nat)
    requires |current| == |queries| && i < |queries|
    requires forall j :: i <= j < |queries| ==> current[j] == queries[j]
    ensures elapsed == SlotRun(e, current, i, start, maxTimeSeconds).1
    ensures r.Success? <==> SlotRun(e, current, i, start, maxTimeSeconds).0.Success?
    ensures r.Success? ==> r.value == current[i := SlotRun(e, current, i, start, maxTimeSeconds).0.value]
    ensures r.Failure? ==> r.error == FailedToReduce
    ensures r.Success? ==> |r.value| == |current|
    ensures r.Success? ==> forall j :: 0 <= j < |current| && j != i ==> r.value[j] == current[j]
    ensures r.Success? ==> r.value == current || ReproducesFault(e, [""], r.value)
    // unless the budget ran out, the slot is left minimal
    ensures r.Success? && !Expired(elapsed, maxTimeSeconds) ==>
      SlotMinimal(e, r.value[..i + 1] + queries[i + 1..], i)
    ensures SlotMinimal(e, current, i) ==> r == Success(current)
    ensures start <= elapsed && (start <= maxTimeSeconds + 1 ==> elapsed <= maxTimeSeconds + 1)
  {
    var reduced;
    reduced, elapsed := ReduceQueryLogQuery(start, e, current, i, maxTimeSeconds, expectedError);
    if reduced.Failure? {
      return Failure(reduced.error), elapsed;
    }
    var next := current[i := reduced.value];
    if reduced.value == current[i] {
      assert next == current;
    }
    SplicedTailAgree(next, queries, i + 1);
    r := Success(next);
  }

  /**
   * The second phase of `reduce_query_log`: every slot whose query is not DDL, in
   * order, is shrunk by `ReduceQueryLogQuery` until the budget check fails.
   */
  method ShrinkPass(e: Engine, queries: seq<string>, start: nat, maxTimeSeconds: nat, expectedError: string)
    returns (r: Result<seq<string>>, elapsed: nat)
    ensures (r, elapsed) == ShrinkRun(e, queries, 0, start, maxTimeSeconds)
    ensures r.Success? ==> |r.value| == |queries|
    ensures r.Success? ==> forall i :: 0 <= i < |queries| && IsDdlQuery(queries[i]) ==> r.value[i] == queries[i]
    ensures r.Success? ==> r.value == queries || ReproducesFault(e, [""], r.value)
    ensures r.Failure? ==> r.error == FailedToReduce
    // unless the budget ran out, every non-DDL slot was left minimal when it was shrunk
    ensures r.Success? && !Expired(elapsed, maxTimeSeconds) ==> ShrunkBefore(e, queries, r.value, |queries|)
    ensures (forall i :: 0 <= i < |queries| && !IsDdlQuery(queries[i]) ==> SlotMinimal(e, queries, i)) ==>
      r == Success(queries)
    ensures start <= elapsed && (start <= maxTimeSeconds + 1 ==> elapsed <= maxTimeSeconds + 1)
  {
    elapsed := start;
    var current := queries;
    ghost var allMinimal := forall i :: 0 <= i < |queries| && !IsDdlQuery(queries[i]) ==> SlotMinimal(e, queries, i);
    for i := 0 to |queries|
      invariant |current| == |queries|
      invariant forall j :: i <= j < |queries| ==> current[j] == queries[j]
      invariant forall j :: 0 <= j < |queries| && IsDdlQuery(queries[j]) ==> current[j] == queries[j]
      invariant current == queries || ReproducesFault(e, [""], current)
      invariant allMinimal ==> current == queries
      invariant start <= elapsed && (start <= maxTimeSeconds + 1 ==> elapsed <= maxTimeSeconds + 1)
      invariant !Expired(elapsed, maxTimeSeconds) ==> ShrunkBefore(e, queries, current, i)
      invariant ShrinkRun(e, current, i, elapsed, maxTimeSeconds) == ShrinkRun(e, queries, 0, start, maxTimeSeconds)
    {
      if IsDdlQuery(current[i]) {
        if !Expired(elapsed, maxTimeSeconds) {
          ShrunkBeforeStep(e, queries, current, current, i);
        }
        continue;
      }
      if Expired(elapsed, maxTimeSeconds) {
        break;
      }
      var shrunk, after := ShrinkSlot(e, queries, current, i, elapsed, maxTimeSeconds, expectedError);
      if shrunk.Failure? {
        return Failure(shrunk.error), after;
      }
      if !Expired(after, maxTimeSeconds) {
        ShrunkBeforeStep(e, queries, current, shrunk.value, i);
      }
      current, elapsed := shrunk.value, after;
    }
    r := Success(current);
  }

  /**
   * `reduce_query_log`: the deletion pass, then the shrink pass, sharing one budget.
   * `afterDeletion` is the list the first phase leaves; `elapsed` is the number of
   * trials run.
   */
  method ReduceQueryLog(e: Engine, queries: seq<string>, dataLoad: seq<string>, maxTimeSeconds: nat,
                        expectedError: string)
    returns (r: Result<seq<string>>, ghost afterDeletion: seq<string>, elapsed: nat)
    ensures (r, elapsed) == QueryLogRun(e, dataLoad, queries, maxTimeSeconds)
    ensures afterDeletion == DeletionRun(e, dataLoad, queries, 0, 0, maxTimeSeconds).0
    ensures IsSubsequence(afterDeletion, queries)
    ensures r.Success? ==> |r.value| == |afterDeletion| <= |queries|
    ensures r.Success? ==> forall i :: 0 <= i < |afterDeletion| && IsDdlQuery(afterDeletion[i]) ==>
      r.value[i] == afterDeletion[i]
    ensures r.Success? ==>
      r.value == queries || ReproducesFault(e, dataLoad, r.value) || ReproducesFault(e, [""], r.value)
    ensures r.Failure? ==> r.error == FailedToReduce
    ensures NoDeletionReproduces(e, dataLoad, queries) ==> afterDeletion == queries
    // unless the budget ran out: something is deleted whenever a single deletion faults,
    // and every non-DDL slot is left minimal
    ensures !Expired(elapsed, maxTimeSeconds) && !NoDeletionReproduces(e, dataLoad, queries) ==>
      |afterDeletion| < |queries|
    ensures r.Success? && !Expired(elapsed, maxTimeSeconds) ==>
      ShrunkBefore(e, afterDeletion, r.value, |afterDeletion|)
    // a log that neither phase can reduce comes back unchanged
    ensures NoDeletionReproduces(e, dataLoad, queries) &&
            (forall i :: 0 <= i < |queries| && !IsDdlQuery(queries[i]) ==> SlotMinimal(e, queries, i)) ==>
      r == Success(queries)
    ensures elapsed <= maxTimeSeconds + 1
  {
    var kept, deletionTime := DeletionPass(e, queries, dataLoad, maxTimeSeconds, expectedError);
    afterDeletion := kept;
    r, elapsed := ShrinkPass(e, kept, deletionTime, maxTimeSeconds, expectedError);
  }

  function LastOf(statements: seq<string>): string
    requires statements != []
  {
    statements[|statements| - 1]
  }

  /** The last statement alone, after the load, ends in an internal error with a
      non-empty signature. */
  predicate LastStatementFaults(e: Engine, last: string, dataLoad: string) {
    var stderr := e.run(dataLoad + last).stderr;
    e.isInternalError(stderr) && |e.exceptionOf(stderr)| > 0
  }

  /**
   * `reduce_multi_statement`: when the last statement alone reproduces an internal
   * error, only it is reduced, against its own signature; otherwise the whole
   * statement list goes through `reduce_query_log` with the load `[dataLoad]` and the
   * default budget, and the result is joined with newlines. `expectedError` is the
   * driver's module-level `expected_error`, which the harness reads. `trials` is the
   * time the chosen reduction spent; in the log case, `afterDeletion` is the list its
   * deletion phase left and `reducedLog` the list it returned.
   */
  method ReduceMultiStatement(e: Engine, sqlQueries: string, localDataLoad: string, maxTime: nat,
                              expectedError: string)
    returns (r: Result<string>, ghost reducedLog: seq<string>, ghost afterDeletion: seq<string>, ghost trials: nat)
    ensures StatementsOf(sqlQueries) == [] <==> r.Failure? && r.error != FailedToReduce
    // a faulting last statement is reduced alone, against its own signature
    ensures StatementsOf(sqlQueries) != [] && LastStatementFaults(e, LastOf(StatementsOf(sqlQueries)), localDataLoad) ==>
      var last := LastOf(StatementsOf(sqlQueries));
      var errorMsg := e.Signature(localDataLoad + last);
      && (r, trials) == Descent(e, StatementAccepts(e, localDataLoad, errorMsg), last, 0, maxTime)
      && (r.Success? ==> r.value == last || e.Signature(localDataLoad + r.value) == errorMsg)
      && (r.Success? && !Expired(trials, maxTime) ==> LocallyMinimal(e, r.value, localDataLoad, errorMsg))
      && (LocallyMinimal(e, last, localDataLoad, errorMsg) ==> r == Success(last))
    // otherwise the statements are log-reduced on the default budget and joined
    ensures StatementsOf(sqlQueries) != [] && !LastStatementFaults(e, LastOf(StatementsOf(sqlQueries)), localDataLoad) ==>
      var statements := StatementsOf(sqlQueries);
      && (if r.Success? then Success(reducedLog) else Failure(r.error), trials)
         == QueryLogRun(e, [localDataLoad], statements, DefaultMaxTime)
      && (r.Success? ==> r.value == Join(reducedLog, "\n"))
      && afterDeletion == DeletionRun(e, [localDataLoad], statements, 0, 0, DefaultMaxTime).0
      && IsSubsequence(afterDeletion, statements)
      && (r.Success? ==> |reducedLog| == |afterDeletion| <= |statements|)
      && (r.Success? ==> forall i :: 0 <= i < |afterDeletion| && IsDdlQuery(afterDeletion[i]) ==>
            reducedLog[i] == afterDeletion[i])
      && (r.Success? ==> reducedLog == statements || ReproducesFault(e, [localDataLoad], reducedLog)
                         || ReproducesFault(e, [""], reducedLog))
      && (!Expired(trials, DefaultMaxTime) && !NoDeletionReproduces(e, [localDataLoad], statements) ==>
            |afterDeletion| < |statements|)
      && (r.Success? && !Expired(trials, DefaultMaxTime) ==>
            ShrunkBefore(e, afterDeletion, reducedLog, |afterDeletion|))
      // statements that neither phase can reduce come back joined, unchanged
      && (NoDeletionReproduces(e, [localDataLoad], statements) &&
          (forall i :: 0 <= i < |statements| && !IsDdlQuery(statements[i]) ==> SlotMinimal(e, statements, i)) ==>
            r == Success(Join(statements, "\n")))
  {
    reducedLog, afterDeletion, trials := [], [], 0;
    var reducer := new MultiStatementManager(sqlQueries);
    var lastStatement := reducer.GetLastStatement();
    if lastStatement.Failure? {
      return Failure(lastStatement.error), reducedLog, afterDeletion, trials;
    }
    var out := e.run(localDataLoad + lastStatement.value);
    var expected := e.exceptionOf(out.stderr);
    if e.isInternalError(out.stderr) && |expected| > 0 {
      r, trials := Reduce(e, lastStatement.value, localDataLoad, expected, maxTime);
      return;
    }
    var queries;
    queries, afterDeletion, trials := ReduceQueryLog(e, reducer.statements, [localDataLoad], DefaultMaxTime,
                                                     expectedError);
    if queries.Failure? {
      return Failure(queries.error), reducedLog, afterDeletion, trials;
    }
    reducedLog := queries.value;
    r := Success(Join(queries.value, "\n"));
  }

  /**
   * The driver's reduction (scripts/reduce_sql.py:290-307, without its file and console
   * I/O): the whole script is run once to obtain the target signature; no signature
   * means "could not reproduce"; a multi-statement script goes to
   * `ReduceMultiStatement`, any other to `Reduce`.
   */
  method ReduceScript(e: Engine, dataLoad: string, sqlQuery: string, maxTime: nat)
    returns (r: Result<string>)
    ensures |e.Signature(dataLoad + sqlQuery)| == 0 ==> r == Failure(CouldNotReproduce)
    ensures |e.Signature(dataLoad + sqlQuery)| > 0 && !MultiStatementManager.IsMultiStatement(sqlQuery) ==>
      var errorMsg := e.Signature(dataLoad + sqlQuery);
      && r == Descent(e, StatementAccepts(e, dataLoad, errorMsg), sqlQuery, 0, maxTime).0
      && (r.Success? ==> r.value == sqlQuery || e.Signature(dataLoad + r.value) == errorMsg)
    ensures MultiStatementManager.IsMultiStatement(sqlQuery) && r.Failure? ==>
      r.error == FailedToReduce || r.error == CouldNotReproduce
  {
    var out := e.run(dataLoad + sqlQuery);
    var expectedError := e.exceptionOf(out.stderr);
    if |expectedError| == 0 {
      return Failure(CouldNotReproduce);
    }
    if MultiStatementManager.IsMultiStatement(sqlQuery) {
      LastStatementOfMulti(sqlQuery);
      ghost var reducedLog, afterDeletion, trials;
      r, reducedLog, afterDeletion, trials := ReduceMultiStatement(e, sqlQuery, dataLoad, maxTime, expectedError);
    } else {
      var trials;
      r, trials := Reduce(e, sqlQuery, dataLoad, expectedError, maxTime);
    }
  }
}
