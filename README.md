# reduce_sql — a verified model of the SQL test-case reducer

`scripts/reduce_sql.py` shrinks a SQL script that makes a database engine fail with an
internal error. It keeps the failure while making the script smaller. It uses the engine
only as a black box: it runs candidate scripts through the shell and compares their
fault signatures. This project models the reducer's core in Dafny and proves
properties of it:

- **Splitter** (`Statements`): `MultiStatementManager` splits a script into `;`-terminated
  statements; `is_multi_statement`, `is_ddl_query` and `initial_cleanup`.
- **Shrinking oracle** (`ShrinkOracle`): `get_reduced_sql` escapes the statement into
  `reduce_sql_statement('…')`, runs it and parses the CSV candidate list the engine prints.
- **Statement reducer** (`StatementReducer`): `reduce`, a greedy descent to a fixpoint
  under a time budget, accepting a candidate only when its signature is the target.
- **Crash isolation harness** (`CrashHarness`):
  - `run_queries_until_crash_mp` is the worker. It writes to a sqlite store with
    commit-before-run discipline.
  - `run_queries_until_crash` reads the store back after the worker has exited.
  - `cleanup_irrelevant_queries` builds the query log and hands it to the harness.
- **Log reducer** (`LogReducer`):
  - `reduce_query_log` has two phases: a deletion pass, then per-slot shrinking.
  - `reduce_query_log_query` shrinks one slot.
  - `reduce_multi_statement` chooses which of the two to run.
  - `ReduceScript` is the driver's choice between statement and log reduction.

Modelling choices:

- **Engine.** The engine is a value of type `Oracle.Engine`. It holds the shell run
  (`run`), `fuzzer_helper.split_exception_trace` (`exceptionOf`),
  `fuzzer_helper.is_internal_error` (`isInternalError`) and whether a run ends the
  worker process (`killsWorker`). A fault signature is `exceptionOf` of the stderr.
- **Time.** Time is counted in trials. A trial is one candidate or harness run, and it
  advances the elapsed time by one unit. The budget check `current_time - start >
  max_time_seconds` becomes `Expired(elapsed, max)`.
- **Store.** The sqlite file is the class `CrashHarness.Store`. It has pending and
  committed copies of the `queries` and `result` tables:
  - the `CREATE TABLE`s take effect at once, because Python's `sqlite3` opens no
    implicit transaction for DDL, so both tables exist from the start;
  - the placeholder `INSERT INTO result` stays pending until the first commit: the
    one in the loop or, when there are no queries, the final `DELETE` and commit;
  - `close()` without a commit discards pending writes;
  - a worker that dies keeps only what was committed.
- **`expected_error`.** The module-level `expected_error` is set by the driver at
  `scripts/reduce_sql.py:291` and read by the worker at line 140. It is an explicit
  parameter `expectedError`.
- **Reference runs.** Each reducer loop is also written as a recursive function over
  the same steps: `CandidateRound` for one round of candidates, `Descent` for `reduce`
  and `reduce_query_log_query`, and `DeletionRun`, `ShrinkRun` and `QueryLogRun` for
  `reduce_query_log`. Every loop is proved to compute exactly its function, including
  the trials it spends. So the budget clock a method returns is the count of trials it
  ran, and the lemmas about the functions state what the loops do.
- **Exceptions.** `Exception("Failed to reduce query")`, the `IndexError` of
  `get_last_statement` and the harness's `assert len(results) == 1` are `Failure`
  values of `Wrappers.Result`.
- **Python strings.** `str.split`, `join`, `strip`, `replace` and `in` are defined as
  Python defines them. `strip()` uses Python's whitespace set.

Three places where the code does not do what one might expect; the model follows the code:

- The harness runs each query alone after the load (`'\n'.join(data_load) + ';' + q`).
  It does not run it after the statements already retained. It stops at the first
  faulting query. `CrashHarness.HarnessKeepsDdl` states what survives.
- The deletion phase of `reduce_query_log` deletes DDL statements too whenever the
  harness still reports a fault. Only the shrink phase skips DDL slots.
- The exception text written by `UPDATE result` (line 142) is never committed. The
  connection is closed without a commit after an internal error. So the signature read
  back is always the `__CRASH__` placeholder (`CrashHarness.HarnessErrorIsMarker`), and
  the log-reduction phases accept any reported fault.

## Model

| member | source | states |
|---|---|---|
| Text.Split | scripts/reduce_sql.py:28 | `str.split` with a separator always yields at least one field |
| Text.SplitJoin | scripts/reduce_sql.py:28 | splitting a join of separator-free fields on that separator gives the fields back |
| Text.SplitNoSeparator | scripts/reduce_sql.py:28 | no field produced by `split(';')` contains `;` |
| Text.SplitNone | scripts/reduce_sql.py:28 | a text without the separator splits into itself alone |
| Text.SplitCons | scripts/reduce_sql.py:28 | a separator-free field followed by the separator becomes the first field |
| Text.SplitSnocSeparator | scripts/reduce_sql.py:28 | a trailing separator adds one empty last field |
| Text.SplitSnocOther | scripts/reduce_sql.py:28 | a trailing non-separator character extends the last field |
| Text.ExtendLast | scripts/reduce_sql.py:28 | appending to the last field keeps the other fields and the count |
| Text.TrimLeftSuffix | scripts/reduce_sql.py:28 | left stripping keeps a suffix whose first character is not stripped |
| Text.TrimRightPrefix | scripts/reduce_sql.py:28 | right stripping keeps a prefix whose last character is not stripped |
| Text.StripIdempotent | scripts/reduce_sql.py:28 | `strip()` applied twice equals applied once |
| Text.StripChars | scripts/reduce_sql.py:28 | `strip()` introduces no character |
| Text.ContainsAt | scripts/reduce_sql.py:111 | the `in` substring test holds exactly when the pattern occurs at some position |
| Text.ContainsExtend | scripts/reduce_sql.py:111 | a substring of a text stays a substring when text is added on either side |
| Text.Lower | scripts/reduce_sql.py:110 | ASCII lowering (`lower()` on `A`-`Z`) keeps the length and lowers each character |
| Text.LowerUpper | scripts/reduce_sql.py:110 | ASCII lowering of an ASCII upper-cased text equals ASCII lowering of the text |
| Text.UndoubleDouble | scripts/reduce_sql.py:55 | undoubling after doubling a character gives the original text back |
| Text.DoubleChars | scripts/reduce_sql.py:55 | doubling quotes never shortens and adds only quote characters |
| Text.DeleteShrinks | scripts/reduce_sql.py:117 | deleting a pattern never lengthens, and changes the text iff it occurs |
| Statements.MultiStatementManager.constructor | scripts/reduce_sql.py:25-33 | the statements are the non-blank `;`-fields of the stripped script, each stripped and `;`-terminated |
| Statements.MultiStatementManager.GetLastStatement | scripts/reduce_sql.py:41-42 | fails (IndexError) iff there are no statements, otherwise yields the last one |
| Statements.InitialCleanup | scripts/reduce_sql.py:116-118 | removing the version banner never lengthens the log and changes it iff the banner occurs |
| Statements.StatementsAppend | scripts/reduce_sql.py:31-33 | statement building distributes over concatenation of fragments |
| Statements.CountNonBlank | scripts/reduce_sql.py:31-33 | one statement per non-blank fragment |
| Statements.StatementsWellFormed | scripts/reduce_sql.py:31-33 | each statement built from `;`-free fragments is non-empty, stripped, ends in its only `;` |
| Statements.StatementsOfRaw | scripts/reduce_sql.py:27-29 | the outer `strip()` and `strip(';')` do not change the statements obtained |
| Statements.StatementsOfWellFormed | scripts/reduce_sql.py:25-33 | every statement of a script is well formed |
| Statements.TrimLeftKeepsStatements | scripts/reduce_sql.py:28 | dropping leading blanks or `;` keeps the statements |
| Statements.SplitBackDrop | scripts/reduce_sql.py:28 | a trailing blank or `;` does not change the statements |
| Statements.TrimRightKeepsStatements | scripts/reduce_sql.py:28 | dropping trailing blanks or `;` keeps the statements |
| Statements.MultiStatementManager.IsMultiStatement | scripts/reduce_sql.py:35-39 | `is_multi_statement` holds iff the manager would build more than one statement |
| Statements.LastStatementOfMulti | scripts/reduce_sql.py:217-219 | a multi-statement script has a well-formed last statement, so `get_last_statement` succeeds |
| Statements.LowerConcat | scripts/reduce_sql.py:110 | ASCII lowering distributes over concatenation |
| Statements.IsDdlQuery | scripts/reduce_sql.py:109-113 | a query is DDL iff a keyword among create/insert/update/delete occurs at some index of its lowered text |
| Statements.DdlExtend | scripts/reduce_sql.py:109-113 | a DDL query stays DDL when text is added on either side |
| Statements.DdlIgnoresCase | scripts/reduce_sql.py:109-113 | ASCII upper-casing a query does not change whether it is DDL |
| ShrinkOracle.GetReducedSql | scripts/reduce_sql.py:54-70 | fails iff the oracle's exit status is non-zero; otherwise yields the parsed candidate list |
| ShrinkOracle.TemplateSplice | scripts/reduce_sql.py:16-18 | substituting into the template puts the text between the call prefix and suffix |
| ShrinkOracle.ReplaceSplice | scripts/reduce_sql.py:55 | `replace` on a text holding the pattern once puts the replacement in its place |
| ShrinkOracle.Escape | scripts/reduce_sql.py:55 | doubling the single quotes is undone by the engine's reading of the literal |
| ShrinkOracle.ReduceQuery | scripts/reduce_sql.py:55 | the oracle query is the template's prefix, the escaped statement, then the template's suffix |
| ShrinkOracle.EscapeIsLiteralBody | scripts/reduce_sql.py:55 | the escaped statement is a valid SQL string-literal body |
| ShrinkOracle.ReduceQueryQuotes | scripts/reduce_sql.py:55 | the oracle query quotes the statement as a literal that unescapes to the statement |
| ShrinkOracle.Unquote | scripts/reduce_sql.py:65-69 | unquoting never lengthens a line, and a line without double quotes is returned as is |
| ShrinkOracle.Candidates | scripts/reduce_sql.py:62-70 | fewer candidates than output lines, since the first parsed row is dropped; none when every line has two characters or fewer |
| ShrinkOracle.UnquoteQuote | scripts/reduce_sql.py:63-69 | unquoting a CSV-quoted non-empty value gives the value back |
| ShrinkOracle.CandidateListAppend | scripts/reduce_sql.py:62-69 | line parsing distributes over the lines |
| ShrinkOracle.CandidateListSnoc | scripts/reduce_sql.py:62-69 | each further line adds its unquoted text when longer than two characters, and nothing otherwise |
| ShrinkOracle.CandidateListQuoted | scripts/reduce_sql.py:62-69 | parsing the lines of quoted non-empty values gives the values back |
| ShrinkOracle.QuoteAllNoNewline | scripts/reduce_sql.py:62 | quoting newline-free values yields newline-free lines |
| ShrinkOracle.ParseQuotedRows | scripts/reduce_sql.py:62-70 | the candidates parsed from quoted CSV output are the printed rows after the header |
| ShrinkOracle.CandidatesFromLongLines | scripts/reduce_sql.py:63-64 | at most one candidate per line, and none from lines of two characters or fewer |
| StatementReducer.CandidateRound | scripts/reduce_sql.py:78-94 | a round of candidates as a function: an accepted candidate differs from the current text, is one of the candidates and passes the test; without acceptance the text is unchanged; acceptance spends budget; the clock ends at most one trial past the budget |
| StatementReducer.RoundTrials | scripts/reduce_sql.py:78-94 | a round that accepts nothing runs one trial per candidate other than the current text, or as many as the budget has left, whichever is fewer |
| StatementReducer.RoundAccepts | scripts/reduce_sql.py:78-94 | an accepting round ends on the first candidate, in order, that passes the test, after one trial for it and for each earlier candidate other than the current text |
| StatementReducer.RoundExhausts | scripts/reduce_sql.py:78-94 | a round that ends without acceptance before the budget runs out rejected every candidate other than the current text |
| StatementReducer.Descent | scripts/reduce_sql.py:75-106 | the descent as a function: the result is the starting text or passes the test; the only failure is the shrink oracle's; the clock ends at most one trial past the budget |
| StatementReducer.TryStatementCandidates | scripts/reduce_sql.py:78-103 | computes exactly `CandidateRound` with the reproduce-the-target test, so the clock counts its trials; accepts the first candidate, in order and other than the current text, that reproduces the target; if none is accepted before the budget runs out, none reproduces |
| StatementReducer.Reduce | scripts/reduce_sql.py:73-106 | computes exactly `Descent` from the input at time 0; the result is the input or reproduces the target signature; fails only when the oracle fails; stops within the budget; an unexpired result is locally minimal; a locally minimal input is returned unchanged; if the oracle never proposes a longer candidate, the result is no longer than the input |
| Sequences.RemoveAtSubsequence | scripts/reduce_sql.py:245 | deleting one query yields a subsequence |
| Sequences.SubsequenceTrans | scripts/reduce_sql.py:239-253 | subsequences of subsequences are subsequences |
| Sequences.SubsequenceLength | scripts/reduce_sql.py:239-253 | a subsequence is no longer than its sequence |
| CrashHarness.Store.constructor | scripts/reduce_sql.py:123-125 | a fresh store has empty pending and committed tables |
| CrashHarness.Store.InsertResult | scripts/reduce_sql.py:126 | appends a pending `result` row; nothing else changes |
| CrashHarness.Store.InsertQuery | scripts/reduce_sql.py:132 | appends a pending `queries` row with the id and text; nothing else changes |
| CrashHarness.Store.UpdateResult | scripts/reduce_sql.py:142 | sets the text of every pending `result` row; nothing else changes |
| CrashHarness.Store.DeleteQuery | scripts/reduce_sql.py:144 | removes the pending `queries` rows with that id; nothing else changes |
| CrashHarness.Store.DeleteResult | scripts/reduce_sql.py:151 | empties the pending `result` table; nothing else changes |
| CrashHarness.Store.Commit | scripts/reduce_sql.py:133 | the committed tables become the pending ones |
| CrashHarness.Store.Close | scripts/reduce_sql.py:153 | closing discards uncommitted writes |
| CrashHarness.FirstFault | scripts/reduce_sql.py:129-147 | the position of the first query that kills the worker or ends in an internal error, or the length |
| CrashHarness.FirstFaultAt | scripts/reduce_sql.py:145-147 | a faulting query with no fault before it is where the worker stops |
| CrashHarness.FirstFaultNext | scripts/reduce_sql.py:129-148 | past a query that does not fault, the first fault lies further on |
| CrashHarness.RecordAndRun | scripts/reduce_sql.py:130-144 | the query row is committed before the run; the run's script is the load joined by newlines, `;`, then the query |
| CrashHarness.RunStep | scripts/reduce_sql.py:131-147 | one loop iteration: the query row is committed before the run; it faults iff it is the first fault; otherwise the pending rows grow by its row exactly when it is DDL |
| CrashHarness.RunUntilFault | scripts/reduce_sql.py:127-148 | stops at the first fault; the committed rows are the earlier DDL rows plus the faulting row, under the placeholder; without a fault the pending rows are the DDL rows |
| CrashHarness.RunQueriesUntilCrashMp | scripts/reduce_sql.py:121-153 | the committed store holds the DDL rows before the first fault plus the faulting row and the placeholder, or the DDL rows and no result; runs exactly the queries up to the first fault |
| CrashHarness.ReadBack | scripts/reduce_sql.py:166-174 | no result row gives `(None, None)`; one row gives the queries ordered by id and that row; more rows fail the assertion |
| CrashHarness.ReadBackCommitted | scripts/reduce_sql.py:166-174 | reading back what the worker committed yields the closed form `HarnessResult` |
| CrashHarness.RunQueriesUntilCrash | scripts/reduce_sql.py:156-174 | the outcome equals the closed form `HarnessResult` of the query list |
| CrashHarness.OrderById | scripts/reduce_sql.py:167 | `ORDER BY id` yields the same rows, sorted by id |
| CrashHarness.InsertById | scripts/reduce_sql.py:167 | inserting a row into a sorted list keeps it sorted and adds exactly that row |
| CrashHarness.CommittedQueriesOrdered | scripts/reduce_sql.py:167 | committed rows are in id order, so `ORDER BY id` keeps them as inserted |
| CrashHarness.HarnessSubsequence | scripts/reduce_sql.py:156-174 | the queries read back are a subsequence of the queries run |
| CrashHarness.HarnessNoneIffNoFault | scripts/reduce_sql.py:149-172 | `(None, None)` comes back iff no query faults, and both parts are present otherwise |
| CrashHarness.HarnessKeepsDdl | scripts/reduce_sql.py:135-147 | on a fault, every DDL query before it is kept, only DDL precedes it, and the faulting query is last |
| CrashHarness.HarnessErrorIsMarker | scripts/reduce_sql.py:126-153 | a reported error is always the `__CRASH__` placeholder |
| CrashHarness.NonEmpty | scripts/reduce_sql.py:180 | keeps exactly the non-empty queries, each as often as it occurs, as a subsequence |
| CrashHarness.LogQueries | scripts/reduce_sql.py:178-180 | the queries of a log are the non-empty `;\n`-pieces of the cleaned log, in order |
| CrashHarness.CleanupIrrelevantQueries | scripts/reduce_sql.py:177-182 | runs the harness with load `[""]` on the non-empty `;\n`-fields of the cleaned log |
| LogReducer.SlotRun | scripts/reduce_sql.py:185-214 | `reduce_query_log_query` as a function: the slot ends on its text or on one that makes the list fault with an empty load; the clock ends at most one trial past the budget |
| LogReducer.SlotRound | scripts/reduce_sql.py:191-211 | a round for a slot accepts the first candidate whose replacement makes the harness fault; one that ends without acceptance before the budget runs out found no such candidate |
| LogReducer.TryCandidates | scripts/reduce_sql.py:191-211 | computes exactly `CandidateRound` with the slot's harness test, so the clock counts its trials; accepts the first candidate, in order and other than the current text, whose replacement makes the harness fault; if none is accepted before the budget runs out, none does |
| LogReducer.ReduceQueryLogQuery | scripts/reduce_sql.py:185-214 | computes exactly `SlotRun`; the slot's result is its old text or makes the whole list fault with an empty load; an unexpired result is minimal for the slot; a minimal slot is returned unchanged; if the oracle never proposes a longer candidate, the result is no longer than the slot's text |
| LogReducer.DeletionRun | scripts/reduce_sql.py:239-253 | the deletion scan as a function: never lengthens the list, and the trial clock stays within one trial past the budget |
| LogReducer.DeletionRunKeeps | scripts/reduce_sql.py:239-253 | the scan leaves a subsequence of its input that is the input itself or still faults |
| LogReducer.DeletionRunNone | scripts/reduce_sql.py:244-252 | when no single deletion faults, the scan deletes nothing |
| LogReducer.DeletionRunShrinks | scripts/reduce_sql.py:244-249 | when some deletion at or after the scan position faults and the budget is not spent, the scan deletes at least one query |
| LogReducer.DeletionScan | scripts/reduce_sql.py:236-253 | a scan from the first query leaves a subsequence that is the input or faults; deletes nothing when no single deletion faults; deletes something when one does and the budget holds |
| LogReducer.DeletionPass | scripts/reduce_sql.py:236-253 | computes exactly the deletion scan: a deletion is kept iff the list without it faults; the result is a subsequence that is the input or faults; nothing is deleted when no single deletion faults, and something is deleted when one does and the budget holds |
| LogReducer.ShrinkRun | scripts/reduce_sql.py:254-262 | the shrink phase as a function: the length and every DDL slot are unchanged; the clock ends at most one trial past the budget |
| LogReducer.QueryLogRun | scripts/reduce_sql.py:235-262 | `reduce_query_log` as a function: the result is no longer than the input, and the clock ends at most one trial past the budget |
| LogReducer.ShrunkBeforeStep | scripts/reduce_sql.py:254-262 | replacing slot i with a minimal text keeps every earlier slot minimal and extends the minimal prefix by one |
| LogReducer.ShrinkSlot | scripts/reduce_sql.py:255-261 | stores what `SlotRun` makes of the slot, with its clock; other slots and the length are unchanged; the slot is its old text or the list faults; unexpired, the slot is minimal; a minimal slot is unchanged |
| LogReducer.ShrinkPass | scripts/reduce_sql.py:254-262 | computes exactly `ShrinkRun`; the length and every DDL slot are unchanged; the result is the input or faults with an empty load; unexpired, every non-DDL slot is minimal given the slots before it; all-minimal slots leave the list unchanged |
| LogReducer.ReduceQueryLog | scripts/reduce_sql.py:235-262 | computes exactly `QueryLogRun`; the list after deletion is the deletion scan's; the result is no longer than the input, keeps its DDL slots, and is the input or faults; unexpired, a reproducing deletion was made and every non-DDL slot is minimal; a log where no deletion faults and every slot is minimal is returned unchanged |
| LogReducer.ReduceMultiStatement | scripts/reduce_sql.py:217-232 | no statements fail; a faulting last statement is reduced alone, exactly as `Descent` does against its own signature, with `Reduce`'s guarantees; otherwise the statements go through `QueryLogRun` on the default budget and are joined by newlines, with `ReduceQueryLog`'s guarantees |
| LogReducer.ReduceScript | scripts/reduce_sql.py:290-307 | no signature means could-not-reproduce; a single statement is reduced exactly as `Descent` does against the script's signature, to itself or a script with that signature |

## Left out

- Running the shell (`run_shell_command`, `subprocess.run`, UTF-8 decoding) is the uninterpreted `Engine.run`. `fuzzer_helper` is not part of this model; its two functions are the `Engine` fields `exceptionOf` and `isInternalError`.
- Process isolation (`multiprocessing.Process`, `fork`, `join`) is replaced by a direct call. A worker that dies is `Engine.killsWorker`: after such a run nothing else executes and only committed rows survive.
- The sqlite file is modelled as the two tables it holds. Deleting the old file (`os.remove`) is modelled as a fresh empty store.
- `time.time()` is a trial counter. The budget counts trials, not seconds.
- `print`, the `verbose` flag, `argparse`, reading the load and exec files, the `--inplace` write and `exit(1)` are I/O and are left out. `ReduceScript` returns a `Failure` where the driver exits.
- Text.Lower: ASCII lowering only, while Python's `lower()` lowers every letter. For `is_ddl_query` the answer is the same. The only non-ASCII characters that lower to ASCII are U+0130 and U+212A. U+0130 lowers to `i` followed by U+0307, which cannot complete `insert`. U+212A lowers to `k`, which no keyword contains. Other uses of `lower()` are not modelled.
- StatementReducer.Reduce: the result is no longer than the input only under the hypothesis `OracleNeverLengthens`. The reducer accepts any candidate that reproduces (scripts/reduce_sql.py:88-93 and 200-204), so the length bound comes from the engine's `reduce_sql_statement` oracle, which is not part of this model. `LogReducer.ReduceQueryLogQuery` has the same hypothesis.
- LogReducer.ShrinkPass: slot replacement works on a `seq` value. In the source, when no deletion happened, `queries[i] = …` updates the caller's list in place; that aliasing is not modelled.
- LogReducer.ReduceMultiStatement: the `reduce_query_log` call uses the default budget of 300 trials, because the source does not pass `max_time` on. `expected_error` is taken as a parameter. When the module is imported rather than run, the global is undefined and the worker raises `NameError`; that case is not modelled.
- LogReducer.ReduceScript: for a multi-statement script it states only the possible failures. What a successful result satisfies is stated by `ReduceMultiStatement`.
