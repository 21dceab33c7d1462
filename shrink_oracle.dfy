/**
 * `get_reduced_sql` (scripts/reduce_sql.py:54-70): asks the engine's
 * `reduce_sql_statement` table function for smaller variants of one
 * statement and parses its CSV output.
 */
module ShrinkOracle {
  import opened Wrappers
  import opened Text
  import opened Oracle

  const Placeholder: string := "${QUERY}"
  const TemplatePrefix: string := "\nSELECT * FROM reduce_sql_statement('"
  const TemplateSuffix: string := "');\n"

  /** `get_reduced_query`, the module-level query template. */
  const QueryTemplate: string := TemplatePrefix + Placeholder + TemplateSuffix

  const FailedToReduce: string := "Failed to reduce query"

  /** `sql_query.replace("'", "''")`. */
  function Escape(q: string): (r: string)
    // the engine reads the literal back as the statement
    ensures Unescape(r) == q
  {
    UndoubleDouble(q, '\'');
    Replace(q, "'", "''")
  }

  /** How the engine reads the body of a quoted SQL literal: `''` stands for `'`. */
  function Unescape(body: string): string {
    Replace(body, "''", "'")
  }

  /** The shrink query for one statement. */
  function ReduceQuery(q: string): (r: string)
    // the escaped statement is spliced between the template's fixed prefix and suffix
    ensures r == TemplatePrefix + Escape(q) + TemplateSuffix
  {
    TemplateSplice(Escape(q));
    Replace(QueryTemplate, Placeholder, Escape(q))
  }

  /** A body a SQL string literal can hold: every quote is doubled. */
  predicate LiteralBody(s: string)
    decreases |s|
  {
    s == []
    || (s[0] != '\'' && LiteralBody(s[1..]))
    || (|s| >= 2 && s[0] == '\'' && s[1] == '\'' && LiteralBody(s[2..]))
  }

  /** One CSV line of the oracle's output, with one surrounding quote removed at each
      end and doubled quotes undoubled. */
  function Unquote(line: string): (r: string)
    requires |line| > 2
    ensures |r| <= |line|
    // a line without double quotes is the value itself
    ensures '"' !in line ==> r == line
  {
    var a := if line[0] == '"' then line[1..] else line;
    var b := if a[|a| - 1] == '"' then a[..|a| - 1] else a;
    ReplaceNoLonger(b, "\"\"", "\"");
    assert '"' !in line ==> Replace(b, "\"\"", "\"") == line by {
      if '"' !in line {
        assert line[0] in line && line[|line| - 1] in line;
        ReplaceSkip(b, [], "\"\"", "\"");
        assert b + [] == b;
      }
    }
    Replace(b, "\"\"", "\"")
  }

  /** The parsed lines longer than two characters, in order. */
  function CandidateList(lines: seq<string>): seq<string> {
    if lines == [] then []
    else (if |lines[0]| <= 2 then [] else [Unquote(lines[0])]) + CandidateList(lines[1..])
  }

  /** Python's `xs[1:]`. */
  function DropFirst<T>(xs: seq<T>): seq<T> {
    if xs == [] then [] else xs[1..]
  }

  /** The candidates `get_reduced_sql` returns for the oracle's output. */
  function Candidates(stdout: string): (r: seq<string>)
    // the first parsed row is never a candidate, and short lines never yield one
    ensures var lines := Split(stdout, "\n");
      && |r| < |lines|
      && ((forall l :: l in lines ==> |l| <= 2) ==> r == [])
  {
    CandidatesFromLongLines(Split(stdout, "\n"));
    DropFirst(CandidateList(Split(stdout, "\n")))
  }

  /** `get_reduced_sql`: a non-zero exit status raises; otherwise the parsed candidates. */
  method GetReducedSql(e: Engine, sqlQuery: string) returns (r: Result<seq<string>>)
    ensures r.Failure? <==> e.run(ReduceQuery(sqlQuery)).returnCode != 0
    ensures r.Failure? ==> r.error == FailedToReduce
    ensures r.Success? ==> r.value == Candidates(e.run(ReduceQuery(sqlQuery)).stdout)
  {
    var out := e.run(ReduceQuery(sqlQuery));
    if out.returnCode != 0 {
      return Failure(FailedToReduce);
    }
    var lines := Split(out.stdout, "\n");
    var reduceCandidates := [];
    var i := 0;
    while i < |lines|
      invariant 0 <= i <= |lines|
      invariant reduceCandidates == CandidateList(lines[..i])
    {
      CandidateListSnoc(lines, i);
      var line := lines[i];
      i := i + 1;
      if |line| <= 2 {
        continue;
      }
      if line[0] == '"' {
        line := line[1..];
      }
      if line[|line| - 1] == '"' {
        line := line[..|line| - 1];
      }
      reduceCandidates := reduceCandidates + [Replace(line, "\"\"", "\"")];
    }
    assert lines[..i] == lines;
    r := Success(DropFirst(reduceCandidates));
  }

  // ---------------------------------------------------------------------
  // Lemmas

  lemma {:induction false} CandidateListAppend(lines: seq<string>, line: string)
    ensures CandidateList(lines + [line]) == CandidateList(lines) + CandidateList([line])
  {
    if lines != [] {
      assert (lines + [line])[1..] == lines[1..] + [line];
      CandidateListAppend(lines[1..], line);
    }
  }

  /** The candidate list of the first `i + 1` lines: one more line parsed. */
  lemma CandidateListSnoc(lines: seq<string>, i: nat)
    requires i < |lines|
    ensures CandidateList(lines[..i + 1]) == CandidateList(lines[..i])
      + (if |lines[i]| <= 2 then [] else [Unquote(lines[i])])
  {
    assert lines[..i + 1] == lines[..i] + [lines[i]];
    CandidateListAppend(lines[..i], lines[i]);
    assert [lines[i]][1..] == [];
  }

  /** Text before the pattern's first character is copied unchanged. */
  lemma {:induction false} ReplaceSkip(a: string, b: string, pat: string, rep: string)
    requires pat != [] && pat[0] !in a
    ensures Replace(a + b, pat, rep) == a + Replace(b, pat, rep)
  {
    if a == [] {
      assert a + b == b;
    } else {
      assert (a + b)[0] == a[0];
      assert (a + b)[1..] == a[1..] + b;
      assert pat[0] !in a[1..];
      ReplaceSkip(a[1..], b, pat, rep);
      assert Replace(a + b, pat, rep) == [a[0]] + Replace(a[1..] + b, pat, rep);
      assert [a[0]] + (a[1..] + Replace(b, pat, rep)) == a + Replace(b, pat, rep);
    }
  }

  /** A text holding the pattern once, with no other occurrence of its first
      character, has that occurrence replaced. */
  lemma ReplaceSplice(pre: string, pat: string, suf: string, x: string)
    requires pat != [] && pat[0] !in pre && pat[0] !in suf
    ensures Replace(pre + pat + suf, pat, x) == pre + x + suf
  {
    calc {
      Replace(pre + pat + suf, pat, x);
      { assert pre + pat + suf == pre + (pat + suf); }
      Replace(pre + (pat + suf), pat, x);
      { ReplaceSkip(pre, pat + suf, pat, x); }
      pre + Replace(pat + suf, pat, x);
      { assert IsPrefix(pat, pat + suf) && (pat + suf)[|pat|..] == suf; }
      pre + (x + Replace(suf, pat, x));
      { ReplaceSkip(suf, [], pat, x); assert suf + [] == suf; }
      pre + x + suf;
    }
  }

  /** The template holds the placeholder once, between a fixed prefix and suffix. */
  lemma TemplateSplice(x: string)
    ensures Replace(QueryTemplate, Placeholder, x) == TemplatePrefix + x + TemplateSuffix
  {
    assert '$' !in TemplatePrefix && '$' !in TemplateSuffix;
    ReplaceSplice(TemplatePrefix, Placeholder, TemplateSuffix, x);
  }

  lemma {:induction false} EscapeIsLiteralBody(q: string)
    ensures LiteralBody(Escape(q))
    decreases |q|
  {
    if q != [] {
      EscapeIsLiteralBody(q[1..]);
      var rest := Escape(q[1..]);
      if q[0] == '\'' {
        assert IsPrefix("'", q);
        assert Escape(q) == "''" + rest;
        assert ("''" + rest)[2..] == rest;
      } else {
        assert !IsPrefix("'", q);
        assert Escape(q) == [q[0]] + rest;
        assert ([q[0]] + rest)[1..] == rest;
      }
    }
  }

  /** The shrink query quotes the statement so that the engine reads back exactly it:
      the spliced text sits between the template's prefix and suffix, is a well-formed
      literal body, and un-doubling its quotes recovers the statement. */
  lemma ReduceQueryQuotes(q: string)
    ensures var e := Escape(q);
      && ReduceQuery(q) == TemplatePrefix + e + TemplateSuffix
      && LiteralBody(e)
      && Unescape(e) == q
  {
    EscapeIsLiteralBody(q);
  }

  /** How the engine prints one value in CSV when it quotes it. */
  function Quote(v: string): string {
    "\"" + Replace(v, "\"", "\"\"") + "\""
  }

  lemma UnquoteQuote(v: string)
    requires v != []
    ensures |Quote(v)| > 2 && Unquote(Quote(v)) == v
  {
    var d := Replace(v, "\"", "\"\"");
    DoubleChars(v, '"');
    var line := Quote(v);
    assert line[1..] == d + "\"";
    assert (d + "\"")[..|d|] == d;
    UndoubleDouble(v, '"');
  }

  function QuoteAll(rows: seq<string>): (r: seq<string>)
    ensures |r| == |rows|
  {
    if rows == [] then [] else [Quote(rows[0])] + QuoteAll(rows[1..])
  }

  lemma {:induction false} CandidateListQuoted(rows: seq<string>)
    requires forall v :: v in rows ==> v != []
    ensures CandidateList(QuoteAll(rows)) == rows
  {
    if rows != [] {
      assert rows[0] in rows;
      assert forall v :: v in rows[1..] ==> v in rows;
      UnquoteQuote(rows[0]);
      CandidateListQuoted(rows[1..]);
      assert QuoteAll(rows)[1..] == QuoteAll(rows[1..]);
    }
  }

  lemma {:induction false} QuoteAllNoNewline(rows: seq<string>)
    requires forall v :: v in rows ==> '\n' !in v
    ensures forall i :: 0 <= i < |QuoteAll(rows)| ==> '\n' !in QuoteAll(rows)[i]
  {
    if rows != [] {
      DoubleChars(rows[0], '"');
      QuoteAllNoNewline(rows[1..]);
      forall i | 0 <= i < |QuoteAll(rows)| ensures '\n' !in QuoteAll(rows)[i] {
        if i > 0 {
          assert QuoteAll(rows)[i] == QuoteAll(rows[1..])[i - 1];
        }
      }
    }
  }

  /** Parsing inverts the engine's CSV printing: when every row is printed quoted, on a
      line of its own, `get_reduced_sql` yields every row but the first, in order. */
  lemma ParseQuotedRows(rows: seq<string>)
    requires rows != []
    requires forall v :: v in rows ==> v != [] && '\n' !in v
    ensures Candidates(Join(QuoteAll(rows), "\n")) == rows[1..]
  {
    QuoteAllNoNewline(rows);
    SplitJoin(QuoteAll(rows), '\n');
    CandidateListQuoted(rows);
  }

  /** Lines of at most two characters are skipped, and no candidate is longer than
      its line. */
  lemma {:induction false} CandidatesFromLongLines(lines: seq<string>)
    ensures |CandidateList(lines)| <= |lines|
    ensures (forall l :: l in lines ==> |l| <= 2) ==> CandidateList(lines) == []
  {
    if lines != [] {
      CandidatesFromLongLines(lines[1..]);
    }
  }
}
