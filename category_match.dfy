/** The category filter of `GET /expenses` (backend/src/routes/expenses.js): the query is
    escaped, anchored between `^` and `$` and handed to MongoDB as a case-insensitive
    `$regex`, which the server evaluates with PCRE. The model reads the fragment of PCRE
    such a pattern can contain (literals, escaped punctuation, `.`, `^`, `$`) and matches it
    as PCRE does without the multiline flag: `.` does not match a newline and `$` matches at
    the end or before a final newline. Case folding covers ASCII letters. */
module CategoryMatch {
  import opened Wrappers
  import opened JsText

  /** The characters the handler's `replace` puts a backslash in front of. */
  predicate IsMeta(c: char)
  {
    || c == '.' || c == '*' || c == '+' || c == '?' || c == '^' || c == '$' || c == '{'
    || c == '}' || c == '(' || c == ')' || c == '|' || c == '[' || c == ']' || c == '\\'
  }

  /** One character as the escape writes it: a backslash in front of a metacharacter. */
  function EscapedChar(c: char): string
  {
    if IsMeta(c) then ['\\', c] else [c]
  }

  /** `category.replace(/[.*+?^${}()|[\]\\]/g, '\\$&')`. */
  function Escape(s: string): (r: string)
    ensures |r| >= |s|
    ensures (forall i :: 0 <= i < |s| ==> !IsMeta(s[i])) ==> r == s
  {
    if s == [] then []
    else
      var rest := Escape(s[1..]);
      assert (forall i :: 0 <= i < |s| ==> !IsMeta(s[i])) ==> rest == s[1..] by {
        if forall i :: 0 <= i < |s| ==> !IsMeta(s[i]) {
          assert forall i :: 0 <= i < |s[1..]| ==> s[1..][i] == s[i + 1];
        }
      }
      assert s == [s[0]] + s[1..];
      EscapedChar(s[0]) + rest
  }

  /** The pattern the handler builds for a category query: the escaped query, anchored at
      both ends. */
  function Pattern(q: string): (p: string)
    ensures |p| >= |q| + 2 && p[0] == '^' && p[|p| - 1] == '$'
    ensures p[1..|p| - 1] == Escape(q)
  {
    "^" + Escape(q) + "$"
  }

  /** One element of a pattern in the fragment read here. */
  datatype Atom = Lit(c: char) | AnyChar | LineStart | LineEnd

  predicate IsAlnum(c: char)
  {
    ('0' <= c <= '9') || ('a' <= c <= 'z') || ('A' <= c <= 'Z')
  }

  /** A pattern read as PCRE reads it, or `None` for one that leaves this fragment (a
      quantifier, group, alternation, class, or an escape that names a class or a special
      character). A backslash before a non-alphanumeric character stands for that
      character. */
  function Parse(p: string): (r: Option<seq<Atom>>)
    ensures r.Some? ==> |r.value| <= |p|
  {
    if p == [] then Some([])
    else if p[0] == '\\' then
      if |p| >= 2 && !IsAlnum(p[1]) then Prepend(Lit(p[1]), Parse(p[2..])) else None
    else if IsOperator(p[0]) then None
    else Prepend(Unescaped(p[0]), Parse(p[1..]))
  }

  /** Characters that start a quantifier, group, alternation or class. */
  predicate IsOperator(c: char)
  {
    || c == '*' || c == '+' || c == '?' || c == '{' || c == '}' || c == '(' || c == ')'
    || c == '|' || c == '[' || c == ']'
  }

  /** What a character without a backslash in front stands for. */
  function Unescaped(c: char): Atom
  {
    if c == '.' then AnyChar
    else if c == '^' then LineStart
    else if c == '$' then LineEnd
    else Lit(c)
  }

  function Prepend(a: Atom, r: Option<seq<Atom>>): (t: Option<seq<Atom>>)
    ensures t.Some? <==> r.Some?
    ensures t.Some? ==> t.value == [a] + r.value
  {
    if r.Some? then Some([a] + r.value) else None
  }

  /** The literal atoms for the characters of `q`. */
  function Lits(q: string): seq<Atom>
  {
    if q == [] then [] else [Lit(q[0])] + Lits(q[1..])
  }

  /** A match of `atoms` that begins at position `i` of `s`. */
  predicate MatchAt(atoms: seq<Atom>, s: string, i: nat)
    requires i <= |s|
    decreases |atoms|
  {
    if atoms == [] then true
    else match atoms[0]
      case Lit(c) => i < |s| && SameLetterIgnoringCase(c, s[i]) && MatchAt(atoms[1..], s, i + 1)
      case AnyChar => i < |s| && s[i] != '\n' && MatchAt(atoms[1..], s, i + 1)
      case LineStart => i == 0 && MatchAt(atoms[1..], s, i)
      case LineEnd => (i == |s| || (i == |s| - 1 && s[i] == '\n')) && MatchAt(atoms[1..], s, i)
  }

  /** A regular expression matches a string when a match begins somewhere in it. */
  predicate Search(atoms: seq<Atom>, s: string)
  {
    exists i :: 0 <= i <= |s| && MatchAt(atoms, s, i)
  }

  /** Whether the `$regex` built from a pattern selects a stored value; a pattern outside
      the fragment yields `None` (the database would be the one to judge it). */
  function RegexSelects(pattern: string, s: string): (r: Option<bool>)
    ensures r.Some? <==> Parse(pattern).Some?
  {
    var atoms := Parse(pattern);
    if atoms.Some? then Some(Search(atoms.value, s)) else None
  }

  /** Reading a character that needs no backslash. */
  lemma ParsePlain(c: char, rest: string)
    requires c != '\\' && !IsOperator(c)
    ensures Parse([c] + rest) == Prepend(Unescaped(c), Parse(rest))
  {
    var p := [c] + rest;
    assert p[0] == c && p[1..] == rest;
  }

  /** The pattern `$` on its own. */
  lemma ParseEnd()
    ensures Parse("$") == Some([LineEnd])
  {
    var p := "$";
    assert p[0] == '$' && p[1..] == [];
    assert Parse(p[1..]) == Some([]);
    assert [LineEnd] + [] == [LineEnd];
  }

  /** Reading a backslash before punctuation. */
  lemma ParseBackslash(c: char, rest: string)
    requires !IsAlnum(c)
    ensures Parse(['\\', c] + rest) == Prepend(Lit(c), Parse(rest))
  {
    var p := ['\\', c] + rest;
    assert p[0] == '\\' && p[1] == c && p[2..] == rest;
  }

  /** An escaped character reads back as itself. */
  lemma ParseEscapedChar(c: char, tail: string)
    ensures Parse(EscapedChar(c) + tail) == Prepend(Lit(c), Parse(tail))
  {
    if IsMeta(c) {
      ParseBackslash(c, tail);
    } else {
      ParsePlain(c, tail);
    }
  }

  lemma EscapeFirst(q: string, rest: string)
    requires q != []
    ensures Escape(q) + rest == EscapedChar(q[0]) + (Escape(q[1..]) + rest)
  {
  }

  lemma LitsFirst(q: string, after: seq<Atom>)
    requires q != []
    ensures [Lit(q[0])] + (Lits(q[1..]) + after) == Lits(q) + after
  {
  }

  /** Reading an escaped query gives back its characters as literals, followed by whatever
      the rest of the pattern reads as. */
  lemma {:induction false} ParseEscaped(q: string, rest: string, after: seq<Atom>)
    requires Parse(rest) == Some(after)
    ensures Parse(Escape(q) + rest) == Some(Lits(q) + after)
  {
    if q == [] {
      assert Escape(q) + rest == rest;
      assert Lits(q) + after == after;
    } else {
      var tail := Escape(q[1..]) + rest;
      EscapeFirst(q, rest);
      ParseEscapedChar(q[0], tail);
      ParseEscaped(q[1..], rest, after);
      LitsFirst(q, after);
    }
  }

  /** The handler's pattern always stays within the fragment: start, the query's characters
      as literals, end. */
  lemma PatternAtoms(q: string)
    ensures Parse(Pattern(q)) == Some([LineStart] + Lits(q) + [LineEnd])
  {
    ParseEnd();
    ParseEscaped(q, "$", [LineEnd]);
    ParsePlain('^', Escape(q) + "$");
    assert Pattern(q) == ['^'] + (Escape(q) + "$");
    assert [LineStart] + (Lits(q) + [LineEnd]) == [LineStart] + Lits(q) + [LineEnd];
  }

  /** Literal atoms followed by `rest` match at `i` exactly when the next `|q|` characters
      equal `q` ignoring case and `rest` matches after them. */
  lemma {:induction false} LitsMatch(q: string, rest: seq<Atom>, s: string, i: nat)
    requires i <= |s|
    ensures MatchAt(Lits(q) + rest, s, i) <==>
      i + |q| <= |s| && EqualIgnoringCase(q, s[i..i + |q|]) && MatchAt(rest, s, i + |q|)
    decreases |q|
  {
    if q == [] {
      assert Lits(q) + rest == rest;
    } else {
      assert (Lits(q) + rest)[1..] == Lits(q[1..]) + rest;
      if i < |s| {
        LitsMatch(q[1..], rest, s, i + 1);
        if i + |q| <= |s| {
          var w := s[i..i + |q|];
          assert s[i + 1..i + 1 + |q[1..]|] == w[1..];
          EqualIgnoringCaseCons(q, w);
        }
      }
    }
  }

  /** Case-insensitive equality, one character at a time. */
  lemma EqualIgnoringCaseCons(q: string, w: string)
    requires |q| == |w| && q != []
    ensures EqualIgnoringCase(q, w) <==>
      SameLetterIgnoringCase(q[0], w[0]) && EqualIgnoringCase(q[1..], w[1..])
  {
    if SameLetterIgnoringCase(q[0], w[0]) && EqualIgnoringCase(q[1..], w[1..]) {
      forall k | 0 <= k < |q| ensures SameLetterIgnoringCase(q[k], w[k]) {
        if k > 0 {
          assert q[1..][k - 1] == q[k] && w[1..][k - 1] == w[k];
        }
      }
    }
    if EqualIgnoringCase(q, w) {
      forall k | 0 <= k < |q| - 1 ensures SameLetterIgnoringCase(q[1..][k], w[1..][k]) {
        assert q[1..][k] == q[k + 1] && w[1..][k] == w[k + 1];
      }
    }
  }

  /** The central fact of the filter: on a value that does not end in a newline, the
      handler's anchored, escaped, case-insensitive pattern selects exactly the values equal
      to the query ignoring case. */
  lemma SelectsExactlyEqual(q: string, s: string)
    requires s == [] || s[|s| - 1] != '\n'
    ensures RegexSelects(Pattern(q), s) == Some(EqualIgnoringCase(q, s))
  {
    PatternAtoms(q);
    var atoms := [LineStart] + Lits(q) + [LineEnd];
    assert atoms[1..] == Lits(q) + [LineEnd];
    LitsMatch(q, [LineEnd], s, 0);
    assert [LineEnd][1..] == [];
    if EqualIgnoringCase(q, s) {
      assert s[0..|q|] == s;
      assert MatchAt(atoms, s, 0);
    }
    if Search(atoms, s) {
      var i :| 0 <= i <= |s| && MatchAt(atoms, s, i);
      assert i == 0;
      assert s[0..|q|] == s;
    }
  }

  /** Stored categories are trimmed, so they never end in a newline and the equivalence
      applies to every one of them. */
  lemma SelectsTrimmed(q: string, s: string)
    requires Trimmed(s)
    ensures RegexSelects(Pattern(q), s) == Some(EqualIgnoringCase(q, s))
  {
    assert IsSpace('\n');
    SelectsExactlyEqual(q, s);
  }

  /** "food" selects "Food" but not "Food2". */
  lemma FoodExamples()
    ensures RegexSelects(Pattern("food"), "Food") == Some(true)
    ensures RegexSelects(Pattern("food"), "Food2") == Some(false)
  {
    SelectsExactlyEqual("food", "Food");
    SelectsExactlyEqual("food", "Food2");
  }

  /** The escape is what keeps "A.B" from selecting "AxB": unescaped, the dot would match
      any character. */
  lemma EscapeNeeded()
    ensures RegexSelects(Pattern("A.B"), "AxB") == Some(false)
    ensures RegexSelects("^A.B$", "AxB") == Some(true)
  {
    EscapedDotIsLiteral();
    UnescapedDotMatches();
  }

  lemma EscapedDotIsLiteral()
    ensures RegexSelects(Pattern("A.B"), "AxB") == Some(false)
  {
    SelectsExactlyEqual("A.B", "AxB");
    assert !SameLetterIgnoringCase('.', 'x');
    assert !EqualIgnoringCase("A.B", "AxB") by {
      assert "A.B"[1] == '.' && "AxB"[1] == 'x';
    }
  }

  lemma UnescapedDotMatches()
    ensures RegexSelects("^A.B$", "AxB") == Some(true)
  {
    var atoms := [LineStart, Lit('A'), AnyChar, Lit('B'), LineEnd];
    UnescapedPatternAtoms();
    assert MatchAt(atoms[4..], "AxB", 3);
    assert MatchAt(atoms, "AxB", 0);
  }

  /** The pattern "^A.B$" read atom by atom: the dot is the any-character atom. */
  lemma UnescapedPatternAtoms()
    ensures Parse("^A.B$") == Some([LineStart, Lit('A'), AnyChar, Lit('B'), LineEnd])
  {
    ParseEnd();
    ParseCons('B', "$", [LineEnd]);
    assert "B$" == ['B'] + "$" && [Lit('B')] + [LineEnd] == [Lit('B'), LineEnd];
    ParseCons('.', "B$", [Lit('B'), LineEnd]);
    assert ".B$" == ['.'] + "B$" && [AnyChar] + [Lit('B'), LineEnd] == [AnyChar, Lit('B'), LineEnd];
    ParseCons('A', ".B$", [AnyChar, Lit('B'), LineEnd]);
    assert "A.B$" == ['A'] + ".B$";
    assert [Lit('A')] + [AnyChar, Lit('B'), LineEnd] == [Lit('A'), AnyChar, Lit('B'), LineEnd];
    ParseCons('^', "A.B$", [Lit('A'), AnyChar, Lit('B'), LineEnd]);
    assert "^A.B$" == ['^'] + "A.B$";
    assert [LineStart] + [Lit('A'), AnyChar, Lit('B'), LineEnd]
      == [LineStart, Lit('A'), AnyChar, Lit('B'), LineEnd];
  }

  /** One plain character in front of a pattern that reads as `atoms`. */
  lemma ParseCons(c: char, rest: string, atoms: seq<Atom>)
    requires c != '\\' && !IsOperator(c) && Parse(rest) == Some(atoms)
    ensures Parse([c] + rest) == Some([Unescaped(c)] + atoms)
  {
    ParsePlain(c, rest);
  }

  /** Why the stored value must not end in a newline: PCRE's `$` also matches before a
      final newline, so the anchored pattern for "Food" selects "Food\n". */
  lemma DollarBeforeFinalNewline()
    ensures RegexSelects(Pattern("Food"), "Food\n") == Some(true)
    ensures !EqualIgnoringCase("Food", "Food\n")
  {
    PatternAtoms("Food");
    var atoms := [LineStart] + Lits("Food") + [LineEnd];
    LitsMatch("Food", [LineEnd], "Food\n", 0);
    assert "Food\n"[0..4] == "Food";
    assert MatchAt([LineEnd], "Food\n", 4);
    assert atoms[1..] == Lits("Food") + [LineEnd];
    assert MatchAt(atoms, "Food\n", 0);
  }
}
