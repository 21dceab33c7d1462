/**
 * The few Python string operations the reducer relies on, over `string`
 * (a sequence of Unicode characters): `str.split`, `str.join`, `str.strip`,
 * `str.replace`, the `in` substring test and `str.lower`.
 */
module Text {

  /** Python's `str.isspace` on one character: the set `str.strip()` removes. */
  predicate IsSpace(c: char) {
    var n := c as int;
    (9 <= n <= 13) || (28 <= n <= 32) || n == 0x85 || n == 0xA0 || n == 0x1680
    || (0x2000 <= n <= 0x200A) || n == 0x2028 || n == 0x2029 || n == 0x202F
    || n == 0x205F || n == 0x3000
  }

  predicate IsSemicolon(c: char) {
    c == ';'
  }

  /** Drops the leading characters that `drop` selects. */
  function TrimLeft(s: string, drop: char -> bool): string
  {
    if s != [] && drop(s[0]) then TrimLeft(s[1..], drop) else s
  }

  /** Drops the trailing characters that `drop` selects. */
  function TrimRight(s: string, drop: char -> bool): string
  {
    if s != [] && drop(s[|s| - 1]) then TrimRight(s[..|s| - 1], drop) else s
  }

  /** Python's `s.strip()`. */
  function Strip(s: string): string {
    TrimRight(TrimLeft(s, IsSpace), IsSpace)
  }

  /** Python's `s.strip(';')`. */
  function StripSemicolons(s: string): string {
    TrimRight(TrimLeft(s, IsSemicolon), IsSemicolon)
  }

  predicate IsPrefix(p: string, s: string) {
    |p| <= |s| && s[..|p|] == p
  }

  /** Python's `s.split(sep)` for a non-empty separator: scans left to right. */
  function Split(s: string, sep: string): (r: seq<string>)
    requires sep != []
    ensures |r| >= 1
    decreases |s|
  {
    if IsPrefix(sep, s) then [""] + Split(s[|sep|..], sep)
    else if s == [] then [""]
    else
      var t := Split(s[1..], sep);
      [[s[0]] + t[0]] + t[1..]
  }

  /** Python's `sep.join(xs)`. */
  function Join(xs: seq<string>, sep: string): string {
    if xs == [] then ""
    else if |xs| == 1 then xs[0]
    else xs[0] + sep + Join(xs[1..], sep)
  }

  /** Python's `s.replace(pat, rep)` for a non-empty pattern. */
  function Replace(s: string, pat: string, rep: string): string
    requires pat != []
    decreases |s|
  {
    if IsPrefix(pat, s) then rep + Replace(s[|pat|..], pat, rep)
    else if s == [] then ""
    else [s[0]] + Replace(s[1..], pat, rep)
  }

  /** Python's `sub in s`. */
  predicate Contains(s: string, sub: string) {
    IsPrefix(sub, s) || (s != [] && Contains(s[1..], sub))
  }

  function LowerChar(c: char): char {
    if 'A' <= c <= 'Z' then (c as int + 32) as char else c
  }

  function UpperChar(c: char): char {
    if 'a' <= c <= 'z' then (c as int - 32) as char else c
  }

  /** ASCII lowering: `str.lower()` on the letters `A`-`Z` only. */
  function Lower(s: string): (r: string)
    ensures |r| == |s|
    ensures forall i :: 0 <= i < |s| ==> r[i] == LowerChar(s[i])
  {
    if s == [] then [] else [LowerChar(s[0])] + Lower(s[1..])
  }

  /** ASCII upper-casing: `str.upper()` on the letters `a`-`z` only. Python's `upper()`
      also maps non-ASCII letters, some of them to ASCII (`ſ` becomes `S`). */
  function Upper(s: string): (r: string)
    ensures |r| == |s|
    ensures forall i :: 0 <= i < |s| ==> r[i] == UpperChar(s[i])
  {
    if s == [] then [] else [UpperChar(s[0])] + Upper(s[1..])
  }

  // ---------------------------------------------------------------------
  // Lemmas

  /** `sub` occurs in `s` starting at index `i`. */
  predicate OccursAt(s: string, sub: string, i: int) {
    0 <= i <= |s| - |sub| && s[i..i + |sub|] == sub
  }

  /** `Contains` is the usual "occurs at some index" relation. */
  lemma {:induction false} ContainsAt(s: string, sub: string)
    ensures Contains(s, sub) <==> exists i :: OccursAt(s, sub, i)
  {
    if IsPrefix(sub, s) {
      assert OccursAt(s, sub, 0);
    } else if s == [] {
    } else {
      ContainsAt(s[1..], sub);
      if Contains(s[1..], sub) {
        var i :| OccursAt(s[1..], sub, i);
        assert s[i + 1..i + 1 + |sub|] == s[1..][i..i + |sub|];
        assert OccursAt(s, sub, i + 1);
      }
      if exists i :: OccursAt(s, sub, i) {
        var i :| OccursAt(s, sub, i);
        assert i != 0;
        assert s[1..][i - 1..i - 1 + |sub|] == s[i..i + |sub|];
        assert OccursAt(s[1..], sub, i - 1);
      }
    }
  }

  /** An occurrence inside `a` is an occurrence inside any extension of `a`. */
  lemma ContainsExtend(a: string, b: string, sub: string)
    requires Contains(a, sub)
    ensures Contains(a + b, sub) && Contains(b + a, sub)
  {
    ContainsAt(a, sub);
    ContainsAt(a + b, sub);
    ContainsAt(b + a, sub);
    var i :| OccursAt(a, sub, i);
    assert (a + b)[i..i + |sub|] == a[i..i + |sub|];
    assert OccursAt(a + b, sub, i);
    assert (b + a)[|b| + i..|b| + i + |sub|] == a[i..i + |sub|];
    assert OccursAt(b + a, sub, |b| + i);
  }

  lemma LowerUpperChar(c: char)
    ensures LowerChar(UpperChar(c)) == LowerChar(c)
  {
    if 'a' <= c <= 'z' {
      assert 'A' <= UpperChar(c) <= 'Z';
    }
  }

  /** Lowering forgets case: an upper-cased string lowers to the same text. */
  lemma LowerUpper(s: string)
    ensures Lower(Upper(s)) == Lower(s)
  {
    forall i | 0 <= i < |s| ensures Lower(Upper(s))[i] == Lower(s)[i] {
      LowerUpperChar(s[i]);
    }
  }

  /** `TrimLeft` keeps a suffix that starts with a kept character. */
  lemma {:induction false} TrimLeftSuffix(s: string, drop: char -> bool)
    ensures var r := TrimLeft(s, drop);
      |r| <= |s| && r == s[|s| - |r|..] && (r != [] ==> !drop(r[0]))
  {
    if s != [] && drop(s[0]) {
      TrimLeftSuffix(s[1..], drop);
    }
  }

  /** `TrimRight` keeps a prefix that ends with a kept character. */
  lemma {:induction false} TrimRightPrefix(s: string, drop: char -> bool)
    ensures var r := TrimRight(s, drop);
      |r| <= |s| && r == s[..|r|] && (r != [] ==> !drop(r[|r| - 1]))
    decreases |s|
  {
    if s != [] && drop(s[|s| - 1]) {
      TrimRightPrefix(s[..|s| - 1], drop);
    }
  }

  /** Stripping is idempotent. */
  lemma StripIdempotent(s: string)
    ensures Strip(Strip(s)) == Strip(s)
  {
    var l := TrimLeft(s, IsSpace);
    var r := TrimRight(l, IsSpace);
    TrimLeftSuffix(s, IsSpace);
    TrimRightPrefix(l, IsSpace);
    if r != [] {
      assert r[0] == l[0];
    }
    assert TrimLeft(r, IsSpace) == r;
  }

  /** Every character of `Strip(s)` occurs in `s`. */
  lemma StripChars(s: string)
    ensures forall c :: c in Strip(s) ==> c in s
  {
    var l := TrimLeft(s, IsSpace);
    var r := TrimRight(l, IsSpace);
    TrimLeftSuffix(s, IsSpace);
    TrimRightPrefix(l, IsSpace);
    forall c | c in r ensures c in s {
      var i :| 0 <= i < |r| && r[i] == c;
      assert l[i] == c;
      assert s[|s| - |l| + i] == c;
    }
  }

  /** A fragment produced by `Split` never contains the one-character separator. */
  lemma {:induction false} SplitNoSeparator(s: string, d: char)
    ensures forall x :: x in Split(s, [d]) ==> d !in x
    decreases |s|
  {
    if IsPrefix([d], s) {
      SplitNoSeparator(s[1..], d);
    } else if s == [] {
    } else {
      SplitNoSeparator(s[1..], d);
      var t := Split(s[1..], [d]);
      assert s[0] != d by { assert s[..1] == [s[0]]; }
      assert t[0] in t;
      forall x | x in Split(s, [d]) ensures d !in x {
        if x != [s[0]] + t[0] {
          assert x in t[1..];
        }
      }
    }
  }

  /** Splitting `x + d` adds an empty last fragment. */
  lemma {:induction false} SplitSnocSeparator(t: string, d: char)
    ensures Split(t + [d], [d]) == Split(t, [d]) + [""]
    decreases |t|
  {
    var s := t + [d];
    if t == [] {
      assert IsPrefix([d], s) && s[1..] == [];
    } else {
      assert s[1..] == t[1..] + [d];
      assert s[..1] == [t[0]] && t[..1] == [t[0]];
      SplitSnocSeparator(t[1..], d);
      var p' := Split(t[1..], [d]);
      if t[0] == d {
        assert Split(s, [d]) == [""] + (p' + [""]);
      } else {
        var q := p' + [""];
        assert Split(s, [d]) == [[t[0]] + q[0]] + q[1..];
        assert q[1..] == p'[1..] + [""];
      }
    }
  }

  /** `p` with `c` appended to its last fragment. */
  function ExtendLast(p: seq<string>, c: char): (r: seq<string>)
    requires p != []
    ensures |r| == |p| && r[|r| - 1] == p[|p| - 1] + [c]
    ensures forall i :: 0 <= i < |p| - 1 ==> r[i] == p[i]
  {
    p[..|p| - 1] + [p[|p| - 1] + [c]]
  }

  lemma ExtendLastCons(x: string, p: seq<string>, c: char)
    requires p != []
    ensures ExtendLast([x] + p, c) == [x] + ExtendLast(p, c)
  {
  }

  lemma ExtendLastHead(h: string, p: seq<string>, c: char)
    requires p != []
    ensures var q := ExtendLast(p, c);
      ExtendLast([h + p[0]] + p[1..], c) == [h + q[0]] + q[1..]
  {
    var q := ExtendLast(p, c);
    var l := ExtendLast([h + p[0]] + p[1..], c);
    assert |l| == |q|;
    if |p| == 1 {
      assert l[0] == h + p[0] + [c] == h + q[0];
    } else {
      assert l[0] == h + q[0];
    }
    forall i | 1 <= i < |l| ensures l[i] == q[i] {
    }
  }

  /** Splitting `x + c`, for `c` not the separator, extends the last fragment. */
  lemma {:induction false} SplitSnocOther(t: string, c: char, d: char)
    requires c != d
    ensures Split(t + [c], [d]) == ExtendLast(Split(t, [d]), c)
    decreases |t|
  {
    var s := t + [c];
    if t == [] {
      assert s == [c] && s[..1] == [c];
      assert !IsPrefix([d], s) && s[1..] == [];
      assert Split(s[1..], [d]) == [""];
      assert [c] + "" == [c];
    } else {
      assert s[1..] == t[1..] + [c];
      assert s[..1] == [t[0]] && t[..1] == [t[0]];
      SplitSnocOther(t[1..], c, d);
      var p' := Split(t[1..], [d]);
      if t[0] == d {
        assert Split(t, [d]) == [""] + p';
        assert Split(s, [d]) == [""] + ExtendLast(p', c);
        ExtendLastCons("", p', c);
      } else {
        assert Split(t, [d]) == [[t[0]] + p'[0]] + p'[1..];
        var q := ExtendLast(p', c);
        assert Split(s, [d]) == [[t[0]] + q[0]] + q[1..];
        ExtendLastHead([t[0]], p', c);
      }
    }
  }

  /** Splitting a string free of the separator yields it whole. */
  lemma {:induction false} SplitNone(s: string, d: char)
    requires d !in s
    ensures Split(s, [d]) == [s]
    decreases |s|
  {
    if s != [] {
      assert !IsPrefix([d], s) by { assert s[0] != d; }
      SplitNone(s[1..], d);
      assert [s[0]] + s[1..] == s;
    }
  }

  /** Splitting `x + d + rest` splits off `x` when `x` holds no `d`. */
  lemma {:induction false} SplitCons(x: string, d: char, rest: string)
    requires d !in x
    ensures Split(x + [d] + rest, [d]) == [x] + Split(rest, [d])
    decreases |x|
  {
    var s := x + [d] + rest;
    if x == [] {
      assert IsPrefix([d], s);
      assert s[1..] == rest;
    } else {
      assert s[0] == x[0] && x[0] != d;
      assert !IsPrefix([d], s);
      assert s[1..] == x[1..] + [d] + rest;
      SplitCons(x[1..], d, rest);
      assert [x[0]] + x[1..] == x;
    }
  }

  /** `Split` undoes `Join` when no piece contains the one-character separator. */
  lemma {:induction false} SplitJoin(xs: seq<string>, d: char)
    requires xs != []
    requires forall i :: 0 <= i < |xs| ==> d !in xs[i]
    ensures Split(Join(xs, [d]), [d]) == xs
  {
    if |xs| == 1 {
      SplitNone(xs[0], d);
    } else {
      SplitJoin(xs[1..], d);
      SplitCons(xs[0], d, Join(xs[1..], [d]));
    }
  }

  /** Un-doubling a character undoes doubling it: Python's
      `s.replace(c, c + c).replace(c + c, c) == s`. */
  lemma {:induction false} UndoubleDouble(s: string, c: char)
    ensures Replace(Replace(s, [c], [c, c]), [c, c], [c]) == s
    decreases |s|
  {
    if s == [] {
    } else if s[0] == c {
      assert IsPrefix([c], s);
      var x := Replace(s[1..], [c], [c, c]);
      assert Replace(s, [c], [c, c]) == [c, c] + x;
      assert ([c, c] + x)[..2] == [c, c];
      assert ([c, c] + x)[2..] == x;
      UndoubleDouble(s[1..], c);
      assert [c] + s[1..] == s;
    } else {
      assert !IsPrefix([c], s);
      var x := Replace(s[1..], [c], [c, c]);
      assert Replace(s, [c], [c, c]) == [s[0]] + x;
      assert ([s[0]] + x)[0] == s[0];
      assert !IsPrefix([c, c], [s[0]] + x);
      assert ([s[0]] + x)[1..] == x;
      UndoubleDouble(s[1..], c);
      assert [s[0]] + s[1..] == s;
    }
  }

  /** Doubling a character neither shortens the text nor introduces other characters. */
  lemma {:induction false} DoubleChars(s: string, c: char)
    ensures |Replace(s, [c], [c, c])| >= |s|
    ensures forall x :: x in Replace(s, [c], [c, c]) ==> x in s || x == c
    decreases |s|
  {
    if s == [] {
    } else if IsPrefix([c], s) {
      DoubleChars(s[1..], c);
    } else {
      DoubleChars(s[1..], c);
    }
  }

  /** Replacing a pattern by text no longer than it never lengthens the text. */
  lemma {:induction false} ReplaceNoLonger(s: string, pat: string, rep: string)
    requires pat != [] && |rep| <= |pat|
    ensures |Replace(s, pat, rep)| <= |s|
    decreases |s|
  {
    if IsPrefix(pat, s) {
      ReplaceNoLonger(s[|pat|..], pat, rep);
    } else if s != [] {
      ReplaceNoLonger(s[1..], pat, rep);
    }
  }

  /** Deleting a pattern never lengthens the text, and leaves it unchanged exactly when
      the pattern does not occur. */
  lemma {:induction false} DeleteShrinks(s: string, pat: string)
    requires pat != []
    ensures |Replace(s, pat, "")| <= |s|
    ensures Replace(s, pat, "") == s <==> !Contains(s, pat)
    decreases |s|
  {
    if IsPrefix(pat, s) {
      DeleteShrinks(s[|pat|..], pat);
      assert |Replace(s, pat, "")| < |s|;
    } else if s == [] {
    } else {
      DeleteShrinks(s[1..], pat);
      assert [s[0]] + s[1..] == s;
      if Replace(s, pat, "") == s {
        assert Replace(s[1..], pat, "") == s[1..];
      }
    }
  }
}
