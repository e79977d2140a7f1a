/** The character classes, case mappings and string operations of the .NET base
    library that the console front end relies on. Case mapping covers the ASCII
    letters only; every other character maps to itself. */
module Text {

  /** char.IsControl: the Unicode control characters U+0000..U+001F and U+007F..U+009F. */
  predicate IsControl(c: char) {
    c as int < 0x20 || (0x7F <= c as int <= 0x9F)
  }

  /** char.IsWhiteSpace, the set of characters string.Trim removes: the space,
      line and paragraph separators plus U+0009..U+000D and U+0085. */
  predicate IsWhiteSpace(c: char) {
    var n := c as int;
    (0x09 <= n <= 0x0D) || n == 0x20 || n == 0x85 || n == 0xA0 || n == 0x1680
    || (0x2000 <= n <= 0x200A) || n == 0x2028 || n == 0x2029 || n == 0x202F
    || n == 0x205F || n == 0x3000
  }

  function LowerChar(c: char): char {
    if 'A' <= c <= 'Z' then (c as int + 32) as char else c
  }

  function UpperChar(c: char): char {
    if 'a' <= c <= 'z' then (c as int - 32) as char else c
  }

  /** string.ToLowerInvariant. */
  function Lower(s: string): string {
    seq(|s|, i requires 0 <= i < |s| => LowerChar(s[i]))
  }

  /** The folding that StringComparison.OrdinalIgnoreCase compares under: .NET
      maps both operands to upper case before comparing code units. */
  function Upper(s: string): string {
    seq(|s|, i requires 0 <= i < |s| => UpperChar(s[i]))
  }

  /** string.StartsWith(p, StringComparison.Ordinal). */
  predicate StartsWith(s: string, p: string) {
    |p| <= |s| && s[..|p|] == p
  }

  /** string.Contains(p, StringComparison.Ordinal). */
  predicate Contains(s: string, p: string) {
    StartsWith(s, p) || (s != [] && Contains(s[1..], p))
  }

  /** string.Equals(b, StringComparison.OrdinalIgnoreCase). */
  predicate EqualsIgnoreCase(a: string, b: string) {
    Upper(a) == Upper(b)
  }

  /** string.StartsWith(p, StringComparison.OrdinalIgnoreCase). */
  predicate StartsWithIgnoreCase(s: string, p: string) {
    |p| <= |s| && Upper(s[..|p|]) == Upper(p)
  }

  /** Two ASCII case foldings agree on which strings they identify, so the
      lower-cased comparison of `switch (input.ToLowerInvariant())` and the
      OrdinalIgnoreCase comparisons judge equality alike. */
  lemma UpperLowerAgree(a: string, b: string)
    ensures Upper(a) == Upper(b) <==> Lower(a) == Lower(b)
  {
    if Upper(a) == Upper(b) {
      assert |a| == |b|;
      forall i | 0 <= i < |a| ensures Lower(a)[i] == Lower(b)[i] {
        assert Upper(a)[i] == Upper(b)[i];
      }
    }
    if Lower(a) == Lower(b) {
      assert |a| == |b|;
      forall i | 0 <= i < |a| ensures Upper(a)[i] == Upper(b)[i] {
        assert Lower(a)[i] == Lower(b)[i];
      }
    }
  }

  /** Keeps the whitespace-free suffix: removes every leading whitespace character. */
  function TrimStart(s: string): (r: string)
    ensures |r| <= |s| && r == s[|s| - |r|..]
    ensures r == [] || !IsWhiteSpace(r[0])
    ensures forall i :: 0 <= i < |s| - |r| ==> IsWhiteSpace(s[i])
  {
    if s != [] && IsWhiteSpace(s[0]) then TrimStart(s[1..]) else s
  }

  /** Removes every trailing whitespace character. */
  function TrimEnd(s: string): (r: string)
    ensures |r| <= |s| && r == s[..|r|]
    ensures r == [] || !IsWhiteSpace(r[|r| - 1])
    ensures forall i :: |r| <= i < |s| ==> IsWhiteSpace(s[i])
  {
    if s != [] && IsWhiteSpace(s[|s| - 1]) then TrimEnd(s[..|s| - 1]) else s
  }

  /** string.Trim: the infix of `s` left once leading and trailing whitespace is removed. */
  function Trim(s: string): (r: string)
    ensures exists k :: 0 <= k <= |s| && StartsWith(s[k..], r)
                        && (forall i :: 0 <= i < k ==> IsWhiteSpace(s[i]))
                        && (forall i :: k + |r| <= i < |s| ==> IsWhiteSpace(s[i]))
    ensures r == [] || (!IsWhiteSpace(r[0]) && !IsWhiteSpace(r[|r| - 1]))
  {
    var t := TrimStart(s);
    var r := TrimEnd(t);
    var k := |s| - |t|;
    assert StartsWith(s[k..], r);
    r
  }

  /** The longest prefix of `s` without a space. */
  function Word(s: string): (w: string)
    ensures |w| <= |s| && w == s[..|w|] && ' ' !in w
    ensures |w| == |s| || s[|w|] == ' '
  {
    if s == [] || s[0] == ' ' then [] else [s[0]] + Word(s[1..])
  }

  /** string.Split(' ', StringSplitOptions.RemoveEmptyEntries): the maximal runs of
      characters other than the space. */
  function Tokens(s: string): (ts: seq<string>)
    ensures forall i :: 0 <= i < |ts| ==> ts[i] != [] && ' ' !in ts[i]
    ensures ts == [] <==> forall i :: 0 <= i < |s| ==> s[i] == ' '
    decreases |s|
  {
    if s == [] then []
    else if s[0] == ' ' then Tokens(s[1..])
    else
      var w := Word(s);
      [w] + Tokens(s[|w|..])
  }

  /** A non-empty string without a space splits into itself alone. */
  lemma TokensOfWord(s: string)
    requires s != [] && ' ' !in s
    ensures Tokens(s) == [s]
  {
    var w := Word(s);
    assert |w| == |s| && w == s;
    assert Tokens(s[|s|..]) == [];
  }

  /** The first word of a string is not changed by what follows a space after it. */
  lemma {:induction false} WordAppend(a: string, b: string)
    ensures Word(a + [' '] + b) == Word(a)
  {
    if a != [] && a[0] != ' ' {
      assert (a + [' '] + b)[1..] == a[1..] + [' '] + b;
      WordAppend(a[1..], b);
    }
  }

  /** Tokens skips a leading space. */
  lemma TokensSpace(s: string)
    requires s != [] && s[0] == ' '
    ensures Tokens(s) == Tokens(s[1..])
  {
  }

  /** Tokens takes the leading word as its first part. */
  lemma TokensWord(s: string)
    requires s != [] && s[0] != ' '
    ensures Tokens(s) == [Word(s)] + Tokens(s[|Word(s)|..])
  {
  }

  /** Splitting distributes over a separating space: the parts of `a + " " + b` are
      the parts of `a` followed by the parts of `b`. With TokensOfWord and the
      all-spaces case of Tokens this fixes the parts of every string. */
  lemma {:induction false} TokensAppend(a: string, b: string)
    ensures Tokens(a + [' '] + b) == Tokens(a) + Tokens(b)
    decreases |a|
  {
    if a == [] {
      var s := a + [' '] + b;
      assert s == [' '] + b && s[1..] == b;
      TokensSpace(s);
    } else if a[0] == ' ' {
      TokensAppend(a[1..], b);
      TokensAppendSpace(a, b);
    } else {
      var w := Word(a);
      TokensAppend(a[|w|..], b);
      TokensAppendWord(a, b, w, a[|w|..]);
    }
  }

  /** The step of TokensAppend past a leading space of `a`. */
  lemma TokensAppendSpace(a: string, b: string)
    requires a != [] && a[0] == ' '
    requires Tokens(a[1..] + [' '] + b) == Tokens(a[1..]) + Tokens(b)
    ensures Tokens(a + [' '] + b) == Tokens(a) + Tokens(b)
  {
    var s := a + [' '] + b;
    assert s[0] == ' ' && s[1..] == a[1..] + [' '] + b;
    TokensSpace(s);
    TokensSpace(a);
  }

  /** The step of TokensAppend past the first word `w` of `a`. */
  lemma TokensAppendWord(a: string, b: string, w: string, rest: string)
    requires a != [] && a[0] != ' ' && w == Word(a) && rest == a[|w|..]
    requires Tokens(rest + [' '] + b) == Tokens(rest) + Tokens(b)
    ensures Tokens(a + [' '] + b) == Tokens(a) + Tokens(b)
  {
    TokensAfterWord(a, b, w, rest);
    TokensWord(a);
    Regroup(w, Tokens(rest), Tokens(b));
  }

  lemma Regroup(w: string, x: seq<string>, y: seq<string>)
    ensures [w] + (x + y) == ([w] + x) + y
  {
  }

  /** The first part of `a + " " + b` is the first word of `a`. */
  lemma TokensAfterWord(a: string, b: string, w: string, rest: string)
    requires a != [] && a[0] != ' ' && w == Word(a) && rest == a[|w|..]
    ensures Tokens(a + [' '] + b) == [w] + Tokens(rest + [' '] + b)
  {
    var s := a + [' '] + b;
    assert s[0] == a[0];
    assert Word(s) == w by {
      WordAppend(a, b);
    }
    assert s[|w|..] == rest + [' '] + b by {
      assert |w| <= |a|;
    }
    TokensWord(s);
  }

  /** string.Join(" ", ws). */
  function Join(ws: seq<string>): string {
    if ws == [] then [] else if |ws| == 1 then ws[0] else ws[0] + [' '] + Join(ws[1..])
  }

  /** Splitting undoes joining: non-empty words without spaces, joined by single
      spaces, split back into the same words. */
  lemma {:induction false} TokensJoin(ws: seq<string>)
    requires forall i :: 0 <= i < |ws| ==> ws[i] != [] && ' ' !in ws[i]
    ensures Tokens(Join(ws)) == ws
  {
    if |ws| == 1 {
      TokensOfWord(ws[0]);
    } else if |ws| > 1 {
      TokensOfWord(ws[0]);
      TokensJoin(ws[1..]);
      TokensAppend(ws[0], Join(ws[1..]));
      assert ws == [ws[0]] + ws[1..];
    }
  }

  /** The last token of a string that does not end in a space ends where the string does. */
  lemma {:induction false} TokensLast(s: string)
    requires s != [] && s[|s| - 1] != ' '
    ensures var ts := Tokens(s); ts != [] && ts[|ts| - 1] != [] && ts[|ts| - 1][|ts[|ts| - 1]| - 1] == s[|s| - 1]
    decreases |s|
  {
    if s[0] == ' ' {
      TokensLast(s[1..]);
    } else {
      var w := Word(s);
      var rest := s[|w|..];
      if |w| == |s| {
        assert w == s && rest == [];
      } else {
        TokensLast(rest);
      }
    }
  }

  /** Trim leaves nothing exactly when every character is whitespace. */
  lemma TrimEmptyIff(s: string)
    ensures Trim(s) == [] <==> forall i :: 0 <= i < |s| ==> IsWhiteSpace(s[i])
  {
    var r := Trim(s);
    var k :| 0 <= k <= |s| && StartsWith(s[k..], r)
             && (forall i :: 0 <= i < k ==> IsWhiteSpace(s[i]))
             && (forall i :: k + |r| <= i < |s| ==> IsWhiteSpace(s[i]));
    if r != [] {
      assert r[0] == s[k..][0] == s[k];
    }
  }

  /** A string that neither starts nor ends with whitespace is its own trim. */
  lemma TrimUnpadded(s: string)
    requires s != [] && !IsWhiteSpace(s[0]) && !IsWhiteSpace(s[|s| - 1])
    ensures Trim(s) == s
  {
    assert TrimStart(s) == s;
  }

  /** A trailing space does not survive trimming. */
  lemma TrimTrailingSpace(s: string)
    ensures Trim(s + [' ']) == Trim(s)
  {
    var t := s + [' '];
    assert t[..|t| - 1] == s;
    if s != [] && !IsWhiteSpace(s[0]) {
      assert TrimStart(t) == t && TrimStart(s) == s;
    } else if s != [] {
      assert t[1..] == s[1..] + [' '];
      TrimTrailingSpace(s[1..]);
    }
  }

  /** A string cannot contain a pattern whose first character it lacks. */
  lemma {:induction false} ContainsFirst(s: string, p: string)
    requires p != [] && p[0] !in s
    ensures !Contains(s, p)
  {
    if s != [] {
      assert s[0] != p[0];
      ContainsFirst(s[1..], p);
    }
  }

  /** Lowering a string without capital letters leaves it unchanged. */
  lemma LowerUncapitalised(s: string)
    requires forall i :: 0 <= i < |s| ==> !('A' <= s[i] <= 'Z')
    ensures Lower(s) == s
  {
  }

  /** Ordinal (code unit by code unit) order on strings; a proper prefix comes first. */
  predicate LexLe(a: string, b: string) {
    a == [] || (b != [] && (a[0] < b[0] || (a[0] == b[0] && LexLe(a[1..], b[1..]))))
  }

  lemma {:induction false} LexLeTotal(a: string, b: string)
    ensures LexLe(a, b) || LexLe(b, a)
  {
    if a != [] && b != [] && a[0] == b[0] {
      LexLeTotal(a[1..], b[1..]);
    }
  }

  lemma {:induction false} LexLeAntisymmetric(a: string, b: string)
    ensures LexLe(a, b) && LexLe(b, a) ==> a == b
  {
    if a != [] && b != [] && LexLe(a, b) && LexLe(b, a) {
      LexLeAntisymmetric(a[1..], b[1..]);
      assert a == [a[0]] + a[1..] && b == [b[0]] + b[1..];
    }
  }

  lemma {:induction false} LexLeTransitive(a: string, b: string, c: string)
    requires LexLe(a, b) && LexLe(b, c)
    ensures LexLe(a, c)
  {
    if a != [] && b != [] && c != [] && a[0] == b[0] == c[0] {
      LexLeTransitive(a[1..], b[1..], c[1..]);
    }
  }
}
