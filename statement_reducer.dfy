/**
 * `reduce` (scripts/reduce_sql.py:73-106): greedy shrinking of one statement
 * against a target fault signature.
 *
 * Elapsed time is counted in trials: every run of a candidate advances the
 * clock by one unit, and the budget check `current_time - start > max_time_seconds`
 * becomes `elapsed > maxTimeSeconds`.
 */
module StatementReducer {
  import opened Wrappers
  import opened Oracle
  import opened ShrinkOracle

  /** The budget check made before every trial. */
  predicate Expired(elapsed: nat, maxTimeSeconds: nat) {
    elapsed > maxTimeSeconds
  }

  /** Trials left before the budget check fails. */
  function Remaining(elapsed: nat, maxTimeSeconds: nat): nat {
    if elapsed <= maxTimeSeconds then maxTimeSeconds + 1 - elapsed else 0
  }

  /** Running the load followed by `candidate` yields the target signature. */
  predicate Reproduces(e: Engine, dataLoad: string, candidate: string, errorMsg: string) {
    e.Signature(dataLoad + candidate) == errorMsg
  }

  /** The shrink oracle answers for `q`, and none of its candidates other than `q`
      itself reproduces the target: `reduce` cannot move from `q`. */
  predicate LocallyMinimal(e: Engine, q: string, dataLoad: string, errorMsg: string) {
    var out := e.run(ReduceQuery(q));
    && out.returnCode == 0
    && forall c :: c in Candidates(out.stdout) && c != q ==> !Reproduces(e, dataLoad, c, errorMsg)
  }

  /** No candidate the shrink oracle proposes for `q` is longer than `q`. */
  ghost predicate NeverLengthens(e: Engine, q: string) {
    forall c :: c in Candidates(e.run(ReduceQuery(q)).stdout) ==> |c| <= |q|
  }

  /** The shrink oracle never proposes a candidate longer than the statement it was
      asked to shrink. The reducer itself never compares lengths. */
  ghost predicate OracleNeverLengthens(e: Engine) {
    forall q :: NeverLengthens(e, q)
  }

  /** The acceptance test of `reduce`: the candidate reproduces the target after the load. */
  function StatementAccepts(e: Engine, dataLoad: string, errorMsg: string): string -> bool {
    c => Reproduces(e, dataLoad, c, errorMsg)
  }

  function Min(a: nat, b: nat): nat {
    if a <= b then a else b
  }

  /** The number of entries of `cs` that differ from `current`. */
  function Others(cs: seq<string>, current: string): nat {
    if cs == [] then 0 else (if cs[0] != current then 1 else 0) + Others(cs[1..], current)
  }

  /**
   * A round of candidates, as a function, from position `i` with `elapsed` trials
   * spent: entries equal to `current` are skipped, the budget check precedes every
   * trial, and the first candidate that `accept` holds for ends the round. Yields
   * whether a candidate was accepted, the text the round ends on, and the trials spent.
   */
  function CandidateRound(accept: string -> bool, current: string, cs: seq<string>, i: nat,
                          elapsed: nat, maxTimeSeconds: nat): (r: (bool, string, nat))
    ensures r.0 ==> r.1 != current && r.1 in cs && accept(r.1)
    ensures !r.0 ==> r.1 == current
    // an accepting round spends at least one trial of the budget
    ensures r.0 ==> Remaining(r.2, maxTimeSeconds) < Remaining(elapsed, maxTimeSeconds)
    ensures elapsed <= r.2 && (elapsed <= maxTimeSeconds + 1 ==> r.2 <= maxTimeSeconds + 1)
    decreases |cs| - i
  {
    if i >= |cs| then (false, current, elapsed)
    else if cs[i] == current then CandidateRound(accept, current, cs, i + 1, elapsed, maxTimeSeconds)
    else if Expired(elapsed, maxTimeSeconds) then (false, current, elapsed)
    else if accept(cs[i]) then (true, cs[i], elapsed + 1)
    else CandidateRound(accept, current, cs, i + 1, elapsed + 1, maxTimeSeconds)
  }

  /** A round that accepts nothing runs one trial per candidate other than the current
      text, or as many as the budget allows. */
  lemma {:induction false} RoundTrials(accept: string -> bool, current: string, cs: seq<string>, i: nat,
                                       elapsed: nat, maxTimeSeconds: nat)
    requires i <= |cs|
    ensures var r := CandidateRound(accept, current, cs, i, elapsed, maxTimeSeconds);
      !r.0 ==> r.2 == elapsed + Min(Others(cs[i..], current), Remaining(elapsed, maxTimeSeconds))
    decreases |cs| - i
  {
    if i < |cs| {
      assert cs[i..][1..] == cs[i + 1..];
      if cs[i] == current || (!Expired(elapsed, maxTimeSeconds) && !accept(cs[i])) {
        RoundTrials(accept, current, cs, i + 1, if cs[i] == current then elapsed else elapsed + 1,
                    maxTimeSeconds);
      }
    }
  }

  /** An accepting round ends on the first candidate, in order, that `accept` holds for,
      after one trial for it and for each earlier candidate other than the current text. */
  lemma {:induction false} RoundAccepts(accept: string -> bool, current: string, cs: seq<string>, i: nat,
                                        elapsed: nat, maxTimeSeconds: nat)
    requires i <= |cs|
    ensures var r := CandidateRound(accept, current, cs, i, elapsed, maxTimeSeconds);
      r.0 ==> exists k :: i <= k < |cs| && cs[k] == r.1
                && r.2 == elapsed + Others(cs[i..k + 1], current)
                && (forall j :: i <= j < k && cs[j] != current ==> !accept(cs[j]))
    decreases |cs| - i
  {
    var r := CandidateRound(accept, current, cs, i, elapsed, maxTimeSeconds);
    if i < |cs| && r.0 {
      assert cs[i..i + 1] == [cs[i]];
      if cs[i] != current && accept(cs[i]) {
        assert Others(cs[i..i + 1], current) == 1 by {
          assert cs[i..i + 1][1..] == [];
        }
      } else {
        var next := if cs[i] == current then elapsed else elapsed + 1;
        RoundAccepts(accept, current, cs, i + 1, next, maxTimeSeconds);
        var k :| i + 1 <= k < |cs| && cs[k] == r.1 && r.2 == next + Others(cs[i + 1..k + 1], current)
                 && (forall j :: i + 1 <= j < k && cs[j] != current ==> !accept(cs[j]));
        assert cs[i..k + 1][1..] == cs[i + 1..k + 1];
      }
    }
  }

  /** A round that ends without acceptance before the budget runs out has rejected
      every candidate from position `i` on other than the current text. */
  lemma {:induction false} RoundExhausts(accept: string -> bool, current: string, cs: seq<string>, i: nat,
                                         elapsed: nat, maxTimeSeconds: nat)
    ensures var r := CandidateRound(accept, current, cs, i, elapsed, maxTimeSeconds);
      !r.0 && !Expired(r.2, maxTimeSeconds) ==> forall j :: i <= j < |cs| && cs[j] != current ==> !accept(cs[j])
    decreases |cs| - i
  {
    if i < |cs| && (cs[i] == current || (!Expired(elapsed, maxTimeSeconds) && !accept(cs[i]))) {
      RoundExhausts(accept, current, cs, i + 1, if cs[i] == current then elapsed else elapsed + 1,
                    maxTimeSeconds);
    }
  }

  /**
   * The descent of `reduce` and `reduce_query_log_query`, as a function: ask the shrink
   * oracle for candidates of `current`, run a round, and start again from the accepted
   * candidate until a round accepts none. Yields the text it ends on, or the oracle's
   * failure, and the trials spent.
   */
  function Descent(e: Engine, accept: string -> bool, current: string, elapsed: nat,
                   maxTimeSeconds: nat): (r: (Result<string>, nat))
    ensures r.0.Failure? ==> r.0.error == FailedToReduce
    ensures r.0.Success? ==> r.0.value == current || accept(r.0.value)
    ensures elapsed <= r.1 && (elapsed <= maxTimeSeconds + 1 ==> r.1 <= maxTimeSeconds + 1)
    decreases Remaining(elapsed, maxTimeSeconds)
  {
    var out := e.run(ReduceQuery(current));
    if out.returnCode != 0 then (Failure(FailedToReduce), elapsed)
    else
      var round := CandidateRound(accept, current, Candidates(out.stdout), 0, elapsed, maxTimeSeconds);
      if !round.0 then (Success(current), round.2)
      else Descent(e, accept, round.1, round.2, maxTimeSeconds)
  }

  /**
   * One round of `reduce`'s inner loop: the candidates are tried in order, skipping
   * the current text, until one reproduces `errorMsg` after the load, or the budget
   * check fails. `start` is the time spent before the round.
   */
  method TryStatementCandidates(e: Engine, dataLoad: string, errorMsg: string, current: string,
                                candidates: seq<string>, start: nat, maxTimeSeconds: nat)
    returns (found: bool, next: string, elapsed: nat)
    ensures (found, next, elapsed)
         == CandidateRound(StatementAccepts(e, dataLoad, errorMsg), current, candidates, 0, start, maxTimeSeconds)
    ensures found ==> next != current && next in candidates
    // the accepted candidate is the first one, in order, that reproduces the target
    ensures found ==> exists k :: 0 <= k < |candidates| && candidates[k] == next &&
                        (forall j :: 0 <= j < k && candidates[j] != current ==>
                           !Reproduces(e, dataLoad, candidates[j], errorMsg))
    ensures found ==> Reproduces(e, dataLoad, next, errorMsg)
    ensures found ==> Remaining(elapsed, maxTimeSeconds) < Remaining(start, maxTimeSeconds)
    ensures !found ==> next == current
    // a round that ends without acceptance before the budget runs out tried everything
    ensures !found && !Expired(elapsed, maxTimeSeconds) ==>
      forall c :: c in candidates && c != current ==> !Reproduces(e, dataLoad, c, errorMsg)
    ensures start <= elapsed && (start <= maxTimeSeconds + 1 ==> elapsed <= maxTimeSeconds + 1)
  {
    found, next, elapsed := false, current, start;
    var i := 0;
    while i < |candidates|
      invariant 0 <= i <= |candidates|
      invariant start <= elapsed && (start <= maxTimeSeconds + 1 ==> elapsed <= maxTimeSeconds + 1)
      invariant forall j :: 0 <= j < i && candidates[j] != current ==>
                  !Reproduces(e, dataLoad, candidates[j], errorMsg)
      invariant !found && next == current
      invariant CandidateRound(StatementAccepts(e, dataLoad, errorMsg), current, candidates, i, elapsed, maxTimeSeconds)
             == CandidateRound(StatementAccepts(e, dataLoad, errorMsg), current, candidates, 0, start, maxTimeSeconds)
    {
      var reduceCandidate := candidates[i];
      if reduceCandidate == current {
        i := i + 1;
        continue;
      }
      if Expired(elapsed, maxTimeSeconds) {
        return;
      }
      elapsed := elapsed + 1;
      var newError := e.exceptionOf(e.run(dataLoad + reduceCandidate).stderr);
      if newError == errorMsg {
        assert candidates[i] == reduceCandidate;
        return true, reduceCandidate, elapsed;
      }
      i := i + 1;
    }
  }

  /**
   * `reduce`: repeatedly asks the shrink oracle for candidates, accepts the first one
   * (other than the current text) that reproduces `errorMsg`, and stops after a round
   * with no acceptance. `elapsed` is the number of trials run.
   */
  method Reduce(e: Engine, sqlQuery: string, dataLoad: string, errorMsg: string, maxTimeSeconds: nat)
    returns (r: Result<string>, elapsed: nat)
    ensures (r, elapsed) == Descent(e, StatementAccepts(e, dataLoad, errorMsg), sqlQuery, 0, maxTimeSeconds)
    // the result is the input, or a candidate that reproduces the target
    ensures r.Success? ==> r.value == sqlQuery || Reproduces(e, dataLoad, r.value, errorMsg)
    // the only failure is the shrink oracle's
    ensures r.Failure? ==> r.error == FailedToReduce
    // no trial starts once the budget check fails
    ensures elapsed <= maxTimeSeconds + 1
    // unless the budget ran out, the result is a fixpoint of the search
    ensures r.Success? && !Expired(elapsed, maxTimeSeconds) ==> LocallyMinimal(e, r.value, dataLoad, errorMsg)
    // a statement the search cannot move from comes back unchanged
    ensures LocallyMinimal(e, sqlQuery, dataLoad, errorMsg) ==> r == Success(sqlQuery)
    // the result is no longer than the input when the oracle never lengthens
    ensures OracleNeverLengthens(e) && r.Success? ==> |r.value| <= |sqlQuery|
  {
    var current := sqlQuery;
    elapsed := 0;
    while true
      invariant current == sqlQuery || Reproduces(e, dataLoad, current, errorMsg)
      invariant elapsed <= maxTimeSeconds + 1
      invariant LocallyMinimal(e, sqlQuery, dataLoad, errorMsg) ==> current == sqlQuery
      invariant OracleNeverLengthens(e) ==> |current| <= |sqlQuery|
      invariant Descent(e, StatementAccepts(e, dataLoad, errorMsg), current, elapsed, maxTimeSeconds)
             == Descent(e, StatementAccepts(e, dataLoad, errorMsg), sqlQuery, 0, maxTimeSeconds)
      decreases Remaining(elapsed, maxTimeSeconds)
    {
      var reduceCandidates := GetReducedSql(e, current);
      if reduceCandidates.Failure? {
        return Failure(reduceCandidates.error), elapsed;
      }
      var found, next, after := TryStatementCandidates(e, dataLoad, errorMsg, current, reduceCandidates.value,
                                                       elapsed, maxTimeSeconds);
      elapsed := after;
      if !found {
        break;
      }
      if OracleNeverLengthens(e) {
        assert NeverLengthens(e, current);
      }
      current := next;
    }
    r := Success(current);
  }
}
