/** The JavaScript string built-ins the expense tracker relies on: `String.prototype.trim`
    (also what express-validator's `trim()` and Mongoose's `trim: true` apply), the ASCII part
    of case-insensitive regular-expression matching, `Array.prototype.join`, and, from the
    UTF-16 code units JavaScript strings are made of, `String.prototype.length` and the order
    `Array.prototype.sort` uses without a comparator. */
module JsText {

  /** The characters `trim` strips and `\s` matches: ECMAScript WhiteSpace and
      LineTerminator. */
  predicate IsSpace(c: char)
  {
    || c == '\t' || c == '\n' || c == '\U{B}' || c == '\U{C}' || c == '\r' || c == ' '
    || c == '\U{A0}' || c == '\U{1680}' || ('\U{2000}' <= c <= '\U{200A}')
    || c == '\U{2028}' || c == '\U{2029}' || c == '\U{202F}' || c == '\U{205F}'
    || c == '\U{3000}' || c == '\U{FEFF}'
  }

  predicate AllSpace(s: string)
  {
    forall i :: 0 <= i < |s| ==> IsSpace(s[i])
  }

  /** `String.prototype.trimStart`: the suffix left after dropping leading white space. */
  function TrimStart(s: string): string
  {
    if |s| > 0 && IsSpace(s[0]) then TrimStart(s[1..]) else s
  }

  /** `trimStart` drops exactly the leading white space: what it returns is a suffix that
      does not start with white space, and everything before it is white space. */
  lemma {:induction false} TrimStartIsSuffix(s: string)
    ensures var r := TrimStart(s);
      && |r| <= |s| && r == s[|s| - |r|..]
      && AllSpace(s[..|s| - |r|])
      && (r == [] || !IsSpace(r[0]))
    decreases |s|
  {
    if |s| > 0 && IsSpace(s[0]) {
      TrimStartIsSuffix(s[1..]);
      SuffixAfterSpace(s, TrimStart(s[1..]));
    } else {
      assert s[..0] == [];
    }
  }

  /** Neither starting nor ending with white space. */
  predicate Trimmed(s: string)
  {
    s == [] || (!IsSpace(s[0]) && !IsSpace(s[|s| - 1]))
  }

  /** `String.prototype.trim`: white space is dropped from both ends. The result is empty
      exactly when `s` is all white space, and otherwise neither starts nor ends with white
      space (see `TrimIsInfix` for the rest). */
  function Trim(s: string): (r: string)
    ensures Trimmed(r)
    ensures r == [] <==> AllSpace(s)
    decreases |s|
  {
    if |s| > 0 && IsSpace(s[0]) then
      assert AllSpace(s) <==> AllSpace(s[1..]) by {
        assert forall i :: 0 < i < |s| ==> s[i] == s[1..][i - 1];
      }
      Trim(s[1..])
    else if |s| > 0 && IsSpace(s[|s| - 1]) then
      assert AllSpace(s) <==> AllSpace(s[..|s| - 1]) by {
        assert forall i :: 0 <= i < |s| - 1 ==> s[i] == s[..|s| - 1][i];
      }
      Trim(s[..|s| - 1])
    else s
  }

  /** What `trim` returns is the infix of `s` left once the white space at both ends is
      dropped. */
  lemma TrimIsInfix(s: string)
    ensures exists k :: 0 <= k <= |s| - |Trim(s)| && Trim(s) == s[k..k + |Trim(s)|]
                        && AllSpace(s[..k]) && AllSpace(s[k + |Trim(s)|..])
  {
    var k := TrimOffset(s);
  }

  /** A suffix of `s[1..]` preceded by white space is one of `s` when `s` starts with
      white space. */
  lemma SuffixAfterSpace(s: string, r: string)
    requires |s| > 0 && IsSpace(s[0]) && |r| <= |s| - 1
    requires r == s[1..][|s| - 1 - |r|..] && AllSpace(s[1..][..|s| - 1 - |r|])
    ensures r == s[|s| - |r|..] && AllSpace(s[..|s| - |r|])
  {
    assert s[..|s| - |r|] == [s[0]] + s[1..][..|s| - 1 - |r|];
    AllSpaceConcat([s[0]], s[1..][..|s| - 1 - |r|]);
  }

  /** The number of white-space characters `trim` drops at the start of `s`. */
  lemma {:induction false} TrimOffset(s: string) returns (k: nat)
    ensures k <= |s| - |Trim(s)| && Trim(s) == s[k..k + |Trim(s)|]
    ensures AllSpace(s[..k]) && AllSpace(s[k + |Trim(s)|..])
    decreases |s|
  {
    var r := Trim(s);
    if |s| > 0 && IsSpace(s[0]) {
      var j := TrimOffset(s[1..]);
      k := InfixAfterSpace(s, r, j);
    } else if |s| > 0 && IsSpace(s[|s| - 1]) {
      k := TrimOffset(s[..|s| - 1]);
      InfixBeforeSpace(s, r, k);
    } else {
      k := 0;
      assert s[..0] == [] && s[|s|..] == [];
    }
  }

  /** An infix of `s[1..]` framed by white space is one of `s` when `s` starts with white
      space. */
  lemma InfixAfterSpace(s: string, r: string, j: nat) returns (k: nat)
    requires |s| > 0 && IsSpace(s[0])
    requires j <= |s| - 1 - |r| && r == s[1..][j..j + |r|]
    requires AllSpace(s[1..][..j]) && AllSpace(s[1..][j + |r|..])
    ensures k <= |s| - |r| && r == s[k..k + |r|]
    ensures AllSpace(s[..k]) && AllSpace(s[k + |r|..])
  {
    k := j + 1;
    assert s[..k] == [s[0]] + s[1..][..j];
    AllSpaceConcat([s[0]], s[1..][..j]);
    assert s[k + |r|..] == s[1..][j + |r|..];
  }

  /** An infix of `s[..|s| - 1]` framed by white space is one of `s` when `s` ends with
      white space. */
  lemma InfixBeforeSpace(s: string, r: string, k: nat)
    requires |s| > 0 && IsSpace(s[|s| - 1])
    requires k <= |s| - 1 - |r| && r == s[..|s| - 1][k..k + |r|]
    requires AllSpace(s[..|s| - 1][..k]) && AllSpace(s[..|s| - 1][k + |r|..])
    ensures k <= |s| - |r| && r == s[k..k + |r|]
    ensures AllSpace(s[..k]) && AllSpace(s[k + |r|..])
  {
    var t := s[..|s| - 1];
    assert s[..k] == t[..k];
    assert s[k + |r|..] == t[k + |r|..] + [s[|s| - 1]];
    AllSpaceConcat(t[k + |r|..], [s[|s| - 1]]);
  }

  lemma AllSpaceConcat(a: string, b: string)
    requires AllSpace(a) && AllSpace(b)
    ensures AllSpace(a + b)
  {
  }

  /** A string with no white space at either end is its own trim. */
  lemma TrimOfTrimmed(s: string)
    requires Trimmed(s)
    ensures Trim(s) == s
  {
  }

  /** Trimming twice is trimming once. */
  lemma TrimIdempotent(s: string)
    ensures Trim(Trim(s)) == Trim(s)
  {
    TrimOfTrimmed(Trim(s));
  }

  /** `Array.prototype.join(sep)` over strings: the parts with `sep` between neighbours. */
  function Join(parts: seq<string>, sep: string): string
  {
    if parts == [] then ""
    else if |parts| == 1 then parts[0]
    else parts[0] + sep + Join(parts[1..], sep)
  }

  /** Case-insensitive comparison of one character: ASCII letters are folded to upper case,
      every other character compares exactly. */
  function UpperAscii(c: char): (u: char)
    ensures ('a' <= c <= 'z') ==> 'A' <= u <= 'Z' && u as int == c as int - 32
    ensures !('a' <= c <= 'z') ==> u == c
  {
    if 'a' <= c <= 'z' then (c as int - 32) as char else c
  }

  predicate SameLetterIgnoringCase(a: char, b: char)
  {
    UpperAscii(a) == UpperAscii(b)
  }

  /** The two strings are equal once ASCII letters are folded to one case. */
  predicate EqualIgnoringCase(a: string, b: string)
  {
    |a| == |b| && forall i :: 0 <= i < |a| ==> SameLetterIgnoringCase(a[i], b[i])
  }

  // ----- UTF-16: `length` and the default order of `Array.prototype.sort` -----

  /** The UTF-16 code units of a character: itself below U+10000, otherwise a high and a low
      surrogate. */
  function Units(c: char): (u: seq<int>)
    ensures 1 <= |u| <= 2
  {
    var v := c as int;
    if v < 0x1_0000 then [v]
    else [0xD800 + (v - 0x1_0000) / 0x400, 0xDC00 + (v - 0x1_0000) % 0x400]
  }

  /** The UTF-16 code units of a string, which is what JavaScript strings are made of. */
  function Utf16(s: string): seq<int>
  {
    if s == [] then [] else Units(s[0]) + Utf16(s[1..])
  }

  /** `String.prototype.length`: the number of UTF-16 code units, one for a character below
      U+10000 and two for a supplementary one. */
  function Length(s: string): (n: nat)
    ensures |s| <= n <= 2 * |s|
    ensures n == 0 <==> s == []
  {
    if s == [] then 0 else |Units(s[0])| + Length(s[1..])
  }

  /** `length` counts exactly the code units of the encoding. */
  lemma {:induction false} LengthIsUnitCount(s: string)
    ensures Length(s) == |Utf16(s)|
  {
    if s != [] {
      LengthIsUnitCount(s[1..]);
    }
  }

  /** A run of one supplementary character is twice as long as it has characters. */
  lemma {:induction false} LengthOfSupplementaryRun(c: char, n: nat)
    requires c as int >= 0x1_0000
    ensures Length(seq(n, _ => c)) == 2 * n
  {
    if n > 0 {
      assert seq(n, _ => c)[1..] == seq(n - 1, _ => c);
      LengthOfSupplementaryRun(c, n - 1);
    }
  }

  /** Lexicographic order on code units, a proper prefix first: how `sort()` without a
      comparator orders strings. */
  predicate UnitsLess(x: seq<int>, y: seq<int>)
  {
    if x == [] then y != []
    else if y == [] then false
    else if x[0] != y[0] then x[0] < y[0]
    else UnitsLess(x[1..], y[1..])
  }

  /** Where a character's first differing code unit puts it: characters below U+D800 by
      value, then the supplementary characters (their high surrogates come next), then
      U+E000 to U+FFFF. */
  function UnitKey(c: char): int
  {
    var v := c as int;
    if v < 0xD800 || v >= 0x1_0000 then v else v + 0x11_0000
  }

  /** Different characters have different keys. */
  lemma UnitKeyInjective(c: char, d: char)
    requires c != d
    ensures UnitKey(c) != UnitKey(d)
  {
  }

  /** The default order of `Array.prototype.sort` on strings, one character at a time:
      `LessIsCodeUnitOrder` shows it is the order of their UTF-16 code units. */
  predicate Less(a: string, b: string)
  {
    if a == [] then b != []
    else if b == [] then false
    else if a[0] != b[0] then UnitKey(a[0]) < UnitKey(b[0])
    else Less(a[1..], b[1..])
  }

  /** Comparing characters by `UnitKey` is comparing their UTF-16 code units, so `Less` is
      the code-unit order `sort()` uses. It differs from the order of code points between a
      supplementary character and one from U+E000 to U+FFFF. */
  lemma {:induction false} LessIsCodeUnitOrder(a: string, b: string)
    ensures Less(a, b) <==> UnitsLess(Utf16(a), Utf16(b))
  {
    if a != [] && b != [] {
      if a[0] == b[0] {
        UnitsLessCommonPrefix(Units(a[0]), Utf16(a[1..]), Utf16(b[1..]));
        LessIsCodeUnitOrder(a[1..], b[1..]);
      } else {
        UnitsLessFirstChar(a[0], b[0], Utf16(a[1..]), Utf16(b[1..]));
      }
    }
  }

  /** Where code-unit and code-point order part: U+1F600 is written D83D DE00, so it sorts
      before U+FF01 although its code point is larger. */
  lemma SupplementaryBeforeLateBmp()
    ensures Less("\U{1F600}", "\U{FF01}") && '\U{FF01}' < '\U{1F600}'
  {
  }

  lemma {:induction false} UnitsLessCommonPrefix(p: seq<int>, x: seq<int>, y: seq<int>)
    ensures UnitsLess(p + x, p + y) <==> UnitsLess(x, y)
  {
    if p != [] {
      assert (p + x)[1..] == p[1..] + x && (p + y)[1..] == p[1..] + y;
      UnitsLessCommonPrefix(p[1..], x, y);
    } else {
      assert p + x == x && p + y == y;
    }
  }

  /** Two different characters decide the code-unit order within their own units. */
  lemma UnitsLessFirstChar(c: char, d: char, x: seq<int>, y: seq<int>)
    requires c != d
    ensures UnitsLess(Units(c) + x, Units(d) + y) <==> UnitKey(c) < UnitKey(d)
  {
    var u, v := Units(c) + x, Units(d) + y;
    var cv, dv := c as int, d as int;
    assert u[0] == Units(c)[0] && v[0] == Units(d)[0];
    if cv >= 0x1_0000 && dv >= 0x1_0000 {
      SurrogateOrder(cv - 0x1_0000, dv - 0x1_0000);
      if u[0] == v[0] {
        assert u[1..][0] == Units(c)[1] && v[1..][0] == Units(d)[1];
      }
    }
  }

  /** A supplementary character's surrogates compare as its offset from U+10000 does. */
  lemma SurrogateOrder(x: nat, y: nat)
    requires x != y
    ensures x / 0x400 < y / 0x400 ==> x < y
    ensures x / 0x400 == y / 0x400 ==> x % 0x400 != y % 0x400 && (x % 0x400 < y % 0x400 <==> x < y)
  {
    assert x == 0x400 * (x / 0x400) + x % 0x400;
    assert y == 0x400 * (y / 0x400) + y % 0x400;
  }

  lemma {:induction false} LessIrreflexive(a: string)
    ensures !Less(a, a)
  {
    if a != [] {
      LessIrreflexive(a[1..]);
    }
  }

  lemma {:induction false} LessTransitive(a: string, b: string, c: string)
    requires Less(a, b) && Less(b, c)
    ensures Less(a, c)
  {
    if a != [] && b != [] && c != [] && a[0] == b[0] && b[0] == c[0] {
      LessTransitive(a[1..], b[1..], c[1..]);
    }
  }

  /** Any two different strings are ordered one way or the other. */
  lemma {:induction false} LessTotal(a: string, b: string)
    requires a != b
    ensures Less(a, b) || Less(b, a)
  {
    if a != [] && b != [] && a[0] == b[0] {
      assert a == [a[0]] + a[1..] && b == [b[0]] + b[1..];
      LessTotal(a[1..], b[1..]);
    } else if a != [] && b != [] {
      UnitKeyInjective(a[0], b[0]);
    }
  }

  lemma {:induction false} LessAsymmetric(a: string, b: string)
    requires Less(a, b)
    ensures !Less(b, a)
  {
    if a != [] && b != [] && a[0] == b[0] {
      LessAsymmetric(a[1..], b[1..]);
    }
  }
}
