/**
 * Statement splitting and classification: the `MultiStatementManager` class,
 * `is_ddl_query` and `initial_cleanup` of scripts/reduce_sql.py.
 */
module Statements {
  import opened Wrappers
  import opened Text

  const Delimiter: string := ";"

  /** The banner line `initial_cleanup` deletes from a query log. */
  const Banner: string := "SELECT * FROM pragma_version()\n"

  predicate IsBlank(x: string) {
    Strip(x) == []
  }

  /** The statements made of a list of fragments: each non-blank fragment,
      trimmed, with the delimiter put back, in the fragments' order. */
  function Statements(xs: seq<string>): seq<string> {
    if xs == [] then []
    else (if IsBlank(xs[0]) then [] else [Strip(xs[0]) + Delimiter]) + Statements(xs[1..])
  }

  /** The list `MultiStatementManager(text).statements` holds. */
  function StatementsOf(text: string): seq<string> {
    Statements(Split(StripSemicolons(Strip(text)), Delimiter))
  }

  /** The fragments that are not blank, untrimmed (the comprehension in `is_multi_statement`). */
  function NonBlankFragments(xs: seq<string>): seq<string> {
    if xs == [] then []
    else (if IsBlank(xs[0]) then [] else [xs[0]]) + NonBlankFragments(xs[1..])
  }

  /** A well-formed statement: a non-empty trimmed body free of `;`, then one `;`. */
  predicate WellFormed(s: string) {
    |s| >= 2 && s[|s| - 1] == ';' && ';' !in s[..|s| - 1] && Strip(s[..|s| - 1]) == s[..|s| - 1]
  }

  class MultiStatementManager {
    var statements: seq<string>

    constructor (multiStatement: string)
      ensures statements == StatementsOf(multiStatement)
    {
      var fragments := Split(StripSemicolons(Strip(multiStatement)), Delimiter);
      var acc := [];
      var i := 0;
      while i < |fragments|
        invariant 0 <= i <= |fragments|
        invariant acc == Statements(fragments[..i])
      {
        var stmt := Strip(fragments[i]);
        StatementsAppend(fragments[..i], fragments[i]);
        StripIdempotent(fragments[i]);
        if |stmt| > 0 {
          acc := acc + [Strip(stmt) + Delimiter];
        }
        assert fragments[..i + 1] == fragments[..i] + [fragments[i]];
        i := i + 1;
      }
      assert fragments[..i] == fragments;
      statements := acc;
    }

    /** More than one non-blank `;`-separated fragment: exactly when the manager
        would hold more than one statement. */
    static predicate IsMultiStatement(sqlStatement: string): (r: bool)
      ensures r <==> |StatementsOf(sqlStatement)| > 1
    {
      StatementsOfRaw(sqlStatement);
      CountNonBlank(Split(sqlStatement, Delimiter));
      |NonBlankFragments(Split(sqlStatement, Delimiter))| > 1
    }

    /** `self.statements[-1]`; an empty list raises `IndexError`. */
    function GetLastStatement(): (r: Result<string>)
      reads this
      ensures r.Success? <==> statements != []
      ensures r.Success? ==> statements == statements[..|statements| - 1] + [r.value]
    {
      if statements == [] then Failure("IndexError: list index out of range")
      else Success(statements[|statements| - 1])
    }
  }

  /** The keywords `is_ddl_query` looks for. */
  const DdlKeywords: set<string> := {"create", "insert", "update", "delete"}

  /** `is_ddl_query`: the lower-cased query mentions a schema- or data-changing keyword,
      that is, one of the keywords occurs at some index of it. */
  predicate IsDdlQuery(query: string): (r: bool)
    ensures r <==> exists k, i :: k in DdlKeywords && OccursAt(Lower(query), k, i)
  {
    var q := Lower(query);
    KeywordAt(q);
    assert q == Lower(query);
    Contains(q, "create") || Contains(q, "insert") || Contains(q, "update") || Contains(q, "delete")
  }

  /** `initial_cleanup`: deletes every occurrence of the version banner, scanning left to right. */
  function InitialCleanup(queryLog: string): (r: string)
    ensures |r| <= |queryLog|
    ensures r == queryLog <==> !Contains(queryLog, Banner)
  {
    DeleteShrinks(queryLog, Banner);
    Replace(queryLog, Banner, "")
  }

  // ---------------------------------------------------------------------
  // Splitting lemmas

  lemma {:induction false} StatementsAppend(xs: seq<string>, x: string)
    ensures Statements(xs + [x]) == Statements(xs) + Statements([x])
  {
    if xs != [] {
      assert (xs + [x])[1..] == xs[1..] + [x];
      StatementsAppend(xs[1..], x);
    }
  }

  /** As many statements as non-blank fragments. */
  lemma {:induction false} CountNonBlank(xs: seq<string>)
    ensures |Statements(xs)| == |NonBlankFragments(xs)|
  {
    if xs != [] {
      CountNonBlank(xs[1..]);
    }
  }

  /** Every statement is well formed, when no fragment holds the delimiter. */
  lemma {:induction false} StatementsWellFormed(xs: seq<string>)
    requires forall x :: x in xs ==> ';' !in x
    ensures forall s :: s in Statements(xs) ==> WellFormed(s)
  {
    if xs != [] {
      StatementsWellFormed(xs[1..]);
      if !IsBlank(xs[0]) {
        var body := Strip(xs[0]);
        var s := body + Delimiter;
        assert s[..|s| - 1] == body;
        StripChars(xs[0]);
        StripIdempotent(xs[0]);
        assert WellFormed(s);
      }
    }
  }

  lemma TrimLeftCons(c: char, t: string, drop: char -> bool)
    requires drop(c)
    ensures TrimLeft([c] + t, drop) == TrimLeft(t, drop)
  {
    assert ([c] + t)[1..] == t;
  }

  lemma {:induction false} TrimLeftSnoc(x: string, c: char, drop: char -> bool)
    ensures TrimLeft(x + [c], drop) ==
      if TrimLeft(x, drop) == [] then TrimLeft([c], drop) else TrimLeft(x, drop) + [c]
  {
    if x != [] {
      assert (x + [c])[0] == x[0];
      assert (x + [c])[1..] == x[1..] + [c];
      if drop(x[0]) {
        TrimLeftSnoc(x[1..], c, drop);
      }
    }
  }

  /** A whitespace character at either end does not change the stripped text. */
  lemma StripSpaceEnds(x: string, c: char)
    requires IsSpace(c)
    ensures Strip([c] + x) == Strip(x)
    ensures Strip(x + [c]) == Strip(x)
  {
    TrimLeftCons(c, x, IsSpace);
    TrimLeftSnoc(x, c, IsSpace);
    var l := TrimLeft(x, IsSpace);
    if l != [] {
      assert (l + [c])[..|l|] == l;
    }
  }

  /** The ends `strip()` and `strip(';')` remove never hold a non-blank fragment. */
  predicate BlankOrDelimiter(c: char) {
    IsSpace(c) || c == ';'
  }

  lemma SplitFrontDrop(c: char, t: string)
    requires BlankOrDelimiter(c)
    ensures Statements(Split([c] + t, Delimiter)) == Statements(Split(t, Delimiter))
  {
    var s := [c] + t;
    assert s[1..] == t;
    if c == ';' {
      assert IsPrefix(Delimiter, s);
      assert Split(s, Delimiter) == [""] + Split(t, Delimiter);
      assert IsBlank("");
    } else {
      assert !IsPrefix(Delimiter, s);
      var p := Split(t, Delimiter);
      StripSpaceEnds(p[0], c);
      assert Split(s, Delimiter) == [[c] + p[0]] + p[1..];
      assert p == [p[0]] + p[1..];
    }
  }

  /** One fragment with a trailing space gives the same statements as without it. */
  lemma StatementSpaceEnd(x: string, c: char)
    requires IsSpace(c)
    ensures Statements([x + [c]]) == Statements([x])
  {
    StripSpaceEnds(x, c);
    assert [x + [c]][1..] == [] && [x][1..] == [];
  }

  lemma SplitBackDropSpace(t: string, c: char)
    requires IsSpace(c)
    ensures Statements(Split(t + [c], Delimiter)) == Statements(Split(t, Delimiter))
  {
    var p := Split(t, Delimiter);
    var init, last := p[..|p| - 1], p[|p| - 1];
    calc {
      Statements(Split(t + [c], Delimiter));
      { SplitSnocOther(t, c, ';'); }
      Statements(init + [last + [c]]);
      { StatementsAppend(init, last + [c]); }
      Statements(init) + Statements([last + [c]]);
      { StatementSpaceEnd(last, c); }
      Statements(init) + Statements([last]);
      { StatementsAppend(init, last); }
      Statements(init + [last]);
      { assert init + [last] == p; }
      Statements(p);
    }
  }

  lemma SplitBackDrop(t: string, c: char)
    requires BlankOrDelimiter(c)
    ensures Statements(Split(t + [c], Delimiter)) == Statements(Split(t, Delimiter))
  {
    if c == ';' {
      SplitSnocSeparator(t, ';');
      StatementsAppend(Split(t, Delimiter), "");
      assert IsBlank("");
    } else {
      SplitBackDropSpace(t, c);
    }
  }

  lemma {:induction false} TrimLeftKeepsStatements(s: string, drop: char -> bool)
    requires forall c :: drop(c) ==> BlankOrDelimiter(c)
    ensures Statements(Split(TrimLeft(s, drop), Delimiter)) == Statements(Split(s, Delimiter))
  {
    if s != [] && drop(s[0]) {
      TrimLeftKeepsStatements(s[1..], drop);
      SplitFrontDrop(s[0], s[1..]);
      assert [s[0]] + s[1..] == s;
    }
  }

  lemma {:induction false} TrimRightKeepsStatements(s: string, drop: char -> bool)
    requires forall c :: drop(c) ==> BlankOrDelimiter(c)
    ensures Statements(Split(TrimRight(s, drop), Delimiter)) == Statements(Split(s, Delimiter))
    decreases |s|
  {
    if s != [] && drop(s[|s| - 1]) {
      var t := s[..|s| - 1];
      TrimRightKeepsStatements(t, drop);
      SplitBackDrop(t, s[|s| - 1]);
      assert t + [s[|s| - 1]] == s;
    }
  }

  /** Stripping the script and its outer semicolons first changes nothing: the
      statements are exactly the non-blank `;`-fragments of the raw text. */
  lemma StatementsOfRaw(text: string)
    ensures StatementsOf(text) == Statements(Split(text, Delimiter))
  {
    var l1 := TrimLeft(text, IsSpace);
    var s1 := TrimRight(l1, IsSpace);
    var l2 := TrimLeft(s1, IsSemicolon);
    var s2 := TrimRight(l2, IsSemicolon);
    TrimRightKeepsStatements(l2, IsSemicolon);
    TrimLeftKeepsStatements(s1, IsSemicolon);
    TrimRightKeepsStatements(l1, IsSpace);
    TrimLeftKeepsStatements(text, IsSpace);
  }

  /** Shape of every statement the manager keeps. */
  lemma StatementsOfWellFormed(text: string)
    ensures forall s :: s in StatementsOf(text) ==> WellFormed(s)
  {
    var frags := Split(StripSemicolons(Strip(text)), Delimiter);
    SplitNoSeparator(StripSemicolons(Strip(text)), ';');
    StatementsWellFormed(frags);
  }

  /** For a multi-statement script the last statement exists and is well formed. */
  lemma LastStatementOfMulti(text: string)
    requires MultiStatementManager.IsMultiStatement(text)
    ensures |StatementsOf(text)| > 1 && WellFormed(StatementsOf(text)[|StatementsOf(text)| - 1])
  {
    StatementsOfWellFormed(text);
  }

  // ---------------------------------------------------------------------
  // Classification lemmas

  lemma {:induction false} LowerConcat(a: string, b: string)
    ensures Lower(a + b) == Lower(a) + Lower(b)
  {
    assert forall i :: 0 <= i < |a + b| ==> Lower(a + b)[i] == (Lower(a) + Lower(b))[i];
  }

  /** Adding text around a DDL query keeps it DDL. */
  lemma DdlExtend(a: string, b: string)
    requires IsDdlQuery(a)
    ensures IsDdlQuery(a + b) && IsDdlQuery(b + a)
  {
    LowerConcat(a, b);
    LowerConcat(b, a);
    var la, lb := Lower(a), Lower(b);
    if Contains(la, "create") {
      ContainsExtend(la, lb, "create");
    } else if Contains(la, "insert") {
      ContainsExtend(la, lb, "insert");
    } else if Contains(la, "update") {
      ContainsExtend(la, lb, "update");
    } else {
      ContainsExtend(la, lb, "delete");
    }
  }

  /** The classification ignores letter case. */
  lemma DdlIgnoresCase(q: string)
    ensures IsDdlQuery(Upper(q)) == IsDdlQuery(q)
  {
    LowerUpper(q);
  }

  /** The four `in` tests together are one search for a keyword at some index. */
  lemma KeywordAt(l: string)
    ensures Contains(l, "create") || Contains(l, "insert") || Contains(l, "update") || Contains(l, "delete")
      <==> exists k, i :: k in DdlKeywords && OccursAt(l, k, i)
  {
    if Contains(l, "create") || Contains(l, "insert") || Contains(l, "update") || Contains(l, "delete") {
      var k := if Contains(l, "create") then "create"
               else if Contains(l, "insert") then "insert"
               else if Contains(l, "update") then "update"
               else "delete";
      assert k in DdlKeywords && Contains(l, k);
      ContainsAt(l, k);
      var i :| OccursAt(l, k, i);
      assert k in DdlKeywords && OccursAt(l, k, i);
    } else {
      forall k, i | k in DdlKeywords ensures !OccursAt(l, k, i) {
        ContainsAt(l, k);
      }
    }
  }
}
