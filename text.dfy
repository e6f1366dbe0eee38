/** Python string primitives the backend relies on, written out over
    `string` (a sequence of Unicode scalar values): `str.isspace`/`strip`,
    `lower` on ASCII letters, substring search (`in`, `find`), `replace`,
    `join`, `splitlines` and `str(int)`. */
module Text {
  import opened Wrappers

  // ---------------------------------------------------------------------
  // Whitespace and strip()

  /** `c.isspace()` in Python: the ASCII controls 9-13 and 28-31, the space,
      and the Unicode separators. */
  predicate IsSpace(c: char) {
    c == ' ' || ('\t' <= c <= '\r') || ('\U{1c}' <= c <= '\U{1f}')
    || c == '\U{85}' || c == '\U{a0}' || c == '\U{1680}'
    || ('\U{2000}' <= c <= '\U{200a}') || c == '\U{2028}' || c == '\U{2029}'
    || c == '\U{202f}' || c == '\U{205f}' || c == '\U{3000}'
  }

  /** Index of the first non-whitespace character of `s` at or after `k`, or |s|. */
  function SpaceEnd(s: string, k: nat): (i: nat)
    requires k <= |s|
    ensures k <= i <= |s|
    ensures forall j :: k <= j < i ==> IsSpace(s[j])
    ensures i < |s| ==> !IsSpace(s[i])
    decreases |s| - k
  {
    if k == |s| || !IsSpace(s[k]) then k else SpaceEnd(s, k + 1)
  }

  /** Index just past the last non-whitespace character of `s` before `k`, or 0. */
  function SpaceStart(s: string, k: nat): (i: nat)
    requires k <= |s|
    ensures i <= k
    ensures forall j :: i <= j < k ==> IsSpace(s[j])
    ensures 0 < i ==> !IsSpace(s[i - 1])
  {
    if k == 0 || !IsSpace(s[k - 1]) then k else SpaceStart(s, k - 1)
  }

  /** `s.lstrip()`: the longest suffix of `s` that does not start with whitespace. */
  function TrimStart(s: string): (r: string)
    ensures |r| <= |s| && r == s[|s| - |r|..]
    ensures forall i :: 0 <= i < |s| - |r| ==> IsSpace(s[i])
    ensures r != [] ==> !IsSpace(r[0])
  {
    s[SpaceEnd(s, 0)..]
  }

  /** `s.rstrip()`: the longest prefix of `s` that does not end with whitespace. */
  function TrimEnd(s: string): (r: string)
    ensures |r| <= |s| && r == s[..|r|]
    ensures forall i :: |r| <= i < |s| ==> IsSpace(s[i])
    ensures r != [] ==> !IsSpace(r[|r| - 1])
  {
    s[..SpaceStart(s, |s|)]
  }

  /** `s.strip()`: the slice of `s` that starts at offset |s| - |TrimStart(s)|,
      with only whitespace cut on either side and no whitespace at either end. */
  function Strip(s: string): (r: string)
    ensures |s| - |TrimStart(s)| + |r| <= |s|
    ensures r == s[|s| - |TrimStart(s)|..|s| - |TrimStart(s)| + |r|]
    ensures forall i :: 0 <= i < |s| && (i < |s| - |TrimStart(s)| || |s| - |TrimStart(s)| + |r| <= i) ==> IsSpace(s[i])
    ensures r != [] ==> !IsSpace(r[0]) && !IsSpace(r[|r| - 1])
    ensures r == [] <==> forall i :: 0 <= i < |s| ==> IsSpace(s[i])
  {
    TrimEnd(TrimStart(s))
  }

  /** A text with no whitespace at either end is its own strip. */
  lemma StripNoEdgeSpace(s: string)
    requires s != [] && !IsSpace(s[0]) && !IsSpace(s[|s| - 1])
    ensures Strip(s) == s
  {
    assert TrimStart(s) == s;
  }

  // ---------------------------------------------------------------------
  // lower()

  /** `c.lower()` restricted to ASCII: upper-case Latin letters map to lower case. */
  function LowerChar(c: char): char {
    if 'A' <= c <= 'Z' then (c as int + 32) as char else c
  }

  function Lower(s: string): (r: string)
    ensures |r| == |s|
    ensures forall i :: 0 <= i < |s| ==> r[i] == LowerChar(s[i])
  {
    seq(|s|, i requires 0 <= i < |s| => LowerChar(s[i]))
  }

  // ---------------------------------------------------------------------
  // Substring search: `t in s` and `s.find(t)`

  predicate OccursAt(s: string, t: string, i: int) {
    0 <= i && i + |t| <= |s| && s[i..i + |t|] == t
  }

  lemma OccursShift(s: string, t: string, j: int)
    requires s != [] && 0 <= j
    ensures OccursAt(s[1..], t, j) <==> OccursAt(s, t, j + 1)
  {
    if 0 <= j && j + |t| <= |s| - 1 {
      assert s[1..][j..j + |t|] == s[j + 1..j + 1 + |t|];
    }
  }

  /** The first position at or after `k` where `t` occurs in `s`, if any. */
  function IndexFrom(s: string, t: string, k: nat): (r: Option<nat>)
    ensures r.Some? ==> k <= r.value && OccursAt(s, t, r.value)
    ensures r.Some? ==> forall j :: k <= j < r.value ==> !OccursAt(s, t, j)
    ensures r.None? ==> forall j :: k <= j ==> !OccursAt(s, t, j)
    decreases |s| - k
  {
    if |s| < k + |t| then None
    else if OccursAt(s, t, k) then Some(k)
    else IndexFrom(s, t, k + 1)
  }

  /** `s.find(t)`: the first position where `t` occurs in `s`, if any. */
  function FirstIndex(s: string, t: string): (r: Option<nat>)
    ensures r.Some? ==> OccursAt(s, t, r.value) && forall j :: 0 <= j < r.value ==> !OccursAt(s, t, j)
    ensures r.None? ==> forall j :: !OccursAt(s, t, j)
  {
    IndexFrom(s, t, 0)
  }

  /** Python's `t in s` for strings. */
  predicate Contains(s: string, t: string)
    ensures Contains(s, t) <==> exists i :: OccursAt(s, t, i)
  {
    FirstIndex(s, t).Some?
  }

  /** An occurrence in a suffix is an occurrence in the whole text, shifted. */
  lemma OccursInSuffix(s: string, t: string, a: nat, k: nat)
    requires a <= |s|
    ensures OccursAt(s[a..], t, k) <==> OccursAt(s, t, a + k)
  {
    if a + k + |t| <= |s| {
      assert s[a..][k..k + |t|] == s[a + k..a + k + |t|];
    }
  }

  /** An occurrence in a prefix is an occurrence in the whole text. */
  lemma OccursInPrefix(s: string, t: string, b: nat, k: nat)
    requires b <= |s|
    requires OccursAt(s[..b], t, k)
    ensures OccursAt(s, t, k)
  {
    assert s[..b][k..k + |t|] == s[k..k + |t|];
  }

  /** A slice of a string in which `t` does not occur does not contain `t` either. */
  lemma NotContainsSlice(s: string, t: string, a: nat, b: nat)
    requires a <= b <= |s|
    requires !Contains(s, t)
    ensures !Contains(s[a..b], t)
  {
    forall i | OccursAt(s[a..b], t, i)
      ensures OccursAt(s, t, a + i)
    {
      var u := s[a..b];
      forall k | 0 <= k < |t| ensures s[a + i..a + i + |t|][k] == t[k] {
        assert u[i..i + |t|][k] == t[k];
        assert u[i + k] == s[a + i + k];
      }
    }
  }

  // ---------------------------------------------------------------------
  // replace()

  /** `s.replace(pattern, with)`: one left-to-right pass replacing every
      non-overlapping occurrence of `pattern`. */
  function Replace(s: string, pattern: string, with: string): string
    requires pattern != []
    decreases |s|
  {
    if |s| < |pattern| then s
    else if s[..|pattern|] == pattern then with + Replace(s[|pattern|..], pattern, with)
    else [s[0]] + Replace(s[1..], pattern, with)
  }

  /** A text without the pattern's first character is left as it is. */
  lemma {:induction false} ReplaceAbsent(s: string, pattern: string, with: string)
    requires pattern != []
    requires forall i :: 0 <= i < |s| ==> s[i] != pattern[0]
    ensures Replace(s, pattern, with) == s
    decreases |s|
  {
    if |s| >= |pattern| {
      assert s[..|pattern|][0] != pattern[0];
      ReplaceAbsent(s[1..], pattern, with);
    }
  }

  // ---------------------------------------------------------------------
  // rfind() of one character

  /** The index of the last `c` in `s`, or None when `s` has none. */
  function LastIndexOf(s: string, c: char): (r: Option<nat>)
    ensures r.None? <==> c !in s
    ensures r.Some? ==> r.value < |s| && s[r.value] == c
    ensures r.Some? ==> forall j :: r.value < j < |s| ==> s[j] != c
  {
    if s == [] then None
    else if s[|s| - 1] == c then Some(|s| - 1)
    else LastIndexOf(s[..|s| - 1], c)
  }

  /** The last `c` is the one with no `c` after it. */
  lemma {:induction false} LastIndexOfIs(s: string, c: char, i: nat)
    requires i < |s| && s[i] == c && c !in s[i + 1..]
    ensures LastIndexOf(s, c) == Some(i)
    decreases |s|
  {
    if i < |s| - 1 {
      assert s[|s| - 1] in s[i + 1..];
      var t := s[..|s| - 1];
      assert t[i + 1..] == s[i + 1..|s| - 1];
      LastIndexOfIs(t, c, i);
    }
  }

  // ---------------------------------------------------------------------
  // join()

  /** `sep.join(parts)`. */
  function Join(sep: string, parts: seq<string>): string
    decreases |parts|
  {
    if parts == [] then []
    else if |parts| == 1 then parts[0]
    else parts[0] + sep + Join(sep, parts[1..])
  }

  // ---------------------------------------------------------------------
  // splitlines()

  /** The line boundaries of `str.splitlines()`: \n, \r, \v, \f, the file,
      group and record separators, NEL, and the line and paragraph separators. */
  predicate IsLineBreak(c: char) {
    ('\n' <= c <= '\r') || ('\U{1c}' <= c <= '\U{1e}')
    || c == '\U{85}' || c == '\U{2028}' || c == '\U{2029}'
  }

  predicate NoBreaks(line: string) {
    forall k :: 0 <= k < |line| ==> !IsLineBreak(line[k])
  }

  /** Index of the first line boundary in `s` at or after `k`, or |s| when there is none. */
  function LineEndFrom(s: string, k: nat): (i: nat)
    requires k <= |s|
    ensures k <= i <= |s|
    ensures forall j :: k <= j < i ==> !IsLineBreak(s[j])
    ensures i < |s| ==> IsLineBreak(s[i])
    decreases |s| - k
  {
    if k == |s| || IsLineBreak(s[k]) then k else LineEndFrom(s, k + 1)
  }

  /** Index of the first line boundary in `s`, or |s| when there is none. */
  function LineEnd(s: string): (i: nat)
    ensures i <= |s|
    ensures forall k :: 0 <= k < i ==> !IsLineBreak(s[k])
    ensures i < |s| ==> IsLineBreak(s[i])
  {
    LineEndFrom(s, 0)
  }

  /** A boundary is one character, except "\r\n", which counts as one boundary of two. */
  function BreakWidth(s: string, i: nat): nat
    requires i < |s|
  {
    if s[i] == '\r' && i + 1 < |s| && s[i + 1] == '\n' then 2 else 1
  }

  /** `s.splitlines()`: the lines of `s` without their boundaries; a final
      boundary does not start an extra empty line. */
  function SplitLines(s: string): (lines: seq<string>)
    ensures s == [] <==> lines == []
    ensures forall j :: 0 <= j < |lines| ==> NoBreaks(lines[j])
    decreases |s|
  {
    if s == [] then []
    else if LineEnd(s) == |s| then [s]
    else [s[..LineEnd(s)]] + SplitLines(s[LineEnd(s) + BreakWidth(s, LineEnd(s))..])
  }

  /** Splitting lines that hold no boundary, joined by "\n", gives them back,
      provided the last one is not empty (a trailing "\n" ends a line, it
      does not start one). */
  lemma {:induction false} SplitLinesOfJoin(lines: seq<string>)
    requires forall j :: 0 <= j < |lines| ==> NoBreaks(lines[j])
    requires lines != [] ==> lines[|lines| - 1] != []
    ensures SplitLines(Join("\n", lines)) == lines
    decreases |lines|
  {
    if lines == [] {
    } else if |lines| == 1 {
      assert LineEnd(lines[0]) == |lines[0]|;
    } else {
      var s := Join("\n", lines);
      var head := lines[0];
      var rest := Join("\n", lines[1..]);
      assert s == head + "\n" + rest;
      assert s[|head|] == '\n';
      assert LineEnd(s) == |head| by {
        assert forall k :: 0 <= k < |head| ==> s[k] == head[k];
      }
      assert s[..|head|] == head;
      assert s[|head| + 1..] == rest;
      SplitLinesOfJoin(lines[1..]);
      assert lines == [head] + lines[1..];
    }
  }

  lemma JoinCons(sep: string, head: string, tail: seq<string>)
    requires tail != []
    ensures Join(sep, [head] + tail) == head + sep + Join(sep, tail)
  {
    assert ([head] + tail)[1..] == tail;
  }

  /** `s` less its last character when that is "\n". */
  function WithoutFinalNewline(s: string): string {
    if s != [] && s[|s| - 1] == '\n' then s[..|s| - 1] else s
  }

  lemma WithoutFinalNewlineAppend(a: string, b: string)
    requires b != []
    ensures WithoutFinalNewline(a + b) == a + WithoutFinalNewline(b)
  {
    if b[|b| - 1] == '\n' {
      assert (a + b)[..|a + b| - 1] == a + b[..|b| - 1];
    }
  }

  lemma SplitLinesUnfold(s: string)
    requires s != [] && LineEnd(s) < |s|
    ensures SplitLines(s) == [s[..LineEnd(s)]] + SplitLines(s[LineEnd(s) + BreakWidth(s, LineEnd(s))..])
  {
  }

  lemma SplitLinesAtNewline(s: string)
    requires s != [] && LineEnd(s) < |s| && OnlyNewlines(s)
    ensures s[LineEnd(s)] == '\n'
    ensures SplitLines(s) == [s[..LineEnd(s)]] + SplitLines(s[LineEnd(s) + 1..])
  {
    SplitLinesUnfold(s);
    assert s[LineEnd(s)] == '\n';
  }

  /** Every line boundary in `s` is a plain "\n". */
  predicate OnlyNewlines(s: string) {
    forall k :: 0 <= k < |s| ==> IsLineBreak(s[k]) ==> s[k] == '\n'
  }

  /** Joining the lines of a text whose only boundaries are "\n" with "\n"
      gives the text back, less one trailing "\n". */
  lemma {:induction false} JoinOfSplitLines(s: string)
    requires OnlyNewlines(s)
    ensures Join("\n", SplitLines(s)) == WithoutFinalNewline(s)
    decreases |s|
  {
    if s == [] {
    } else if LineEnd(s) == |s| {
      JoinOfSplitLinesOneLine(s);
    } else if LineEnd(s) == |s| - 1 {
      JoinOfSplitLinesLastBreak(s);
    } else {
      var i := LineEnd(s);
      var rest := s[i + 1..];
      SplitAtInnerNewline(s);
      JoinOfSplitLines(rest);
      JoinOfSplitLinesStep(s[..i], rest, SplitLines(rest));
    }
  }

  lemma SplitAtInnerNewline(s: string)
    requires s != [] && LineEnd(s) < |s| - 1 && OnlyNewlines(s)
    ensures s == s[..LineEnd(s)] + "\n" + s[LineEnd(s) + 1..]
    ensures SplitLines(s) == [s[..LineEnd(s)]] + SplitLines(s[LineEnd(s) + 1..])
    ensures OnlyNewlines(s[LineEnd(s) + 1..])
  {
    SplitLinesAtNewline(s);
    OnlyNewlinesSuffix(s, LineEnd(s) + 1);
    SplitAroundNewline(s, LineEnd(s));
  }

  lemma SplitAroundNewline(s: string, i: nat)
    requires i < |s| && s[i] == '\n'
    ensures s == s[..i] + "\n" + s[i + 1..]
  {
    assert s[..i] + "\n" + s[i + 1..] == s[..i] + s[i..];
  }

  lemma JoinOfSplitLinesOneLine(s: string)
    requires s != [] && LineEnd(s) == |s|
    ensures Join("\n", SplitLines(s)) == WithoutFinalNewline(s)
  {
    assert SplitLines(s) == [s];
    assert !IsLineBreak(s[|s| - 1]);
  }

  lemma JoinOfSplitLinesLastBreak(s: string)
    requires s != [] && LineEnd(s) == |s| - 1 && OnlyNewlines(s)
    ensures Join("\n", SplitLines(s)) == WithoutFinalNewline(s)
  {
    SplitLinesAtNewline(s);
    assert s[|s|..] == [];
    assert SplitLines(s) == [s[..|s| - 1]];
  }

  lemma OnlyNewlinesSuffix(s: string, j: nat)
    requires OnlyNewlines(s) && j <= |s|
    ensures OnlyNewlines(s[j..])
  {
    var rest := s[j..];
    forall k | 0 <= k < |rest| ensures IsLineBreak(rest[k]) ==> rest[k] == '\n' {
      assert rest[k] == s[j + k];
    }
  }

  lemma JoinOfSplitLinesStep(head: string, rest: string, lines: seq<string>)
    requires lines != [] && rest != []
    requires Join("\n", lines) == WithoutFinalNewline(rest)
    ensures Join("\n", [head] + lines) == WithoutFinalNewline(head + "\n" + rest)
  {
    JoinCons("\n", head, lines);
    WithoutFinalNewlineAppend(head + "\n", rest);
  }

  // ---------------------------------------------------------------------
  // Ordering of strings by code point, as a binary collation sorts them

  predicate StrLess(a: string, b: string)
    decreases |a|
  {
    if a == [] then b != []
    else if b == [] then false
    else if a[0] != b[0] then a[0] < b[0]
    else StrLess(a[1..], b[1..])
  }

  lemma {:induction false} StrLessIrreflexive(a: string)
    ensures !StrLess(a, a)
    decreases |a|
  {
    if a != [] {
      StrLessIrreflexive(a[1..]);
    }
  }

  lemma {:induction false} StrLessTotal(a: string, b: string)
    requires a != b
    ensures StrLess(a, b) || StrLess(b, a)
    decreases |a|
  {
    if a != [] && b != [] && a[0] == b[0] {
      assert a == [a[0]] + a[1..] && b == [b[0]] + b[1..];
      StrLessTotal(a[1..], b[1..]);
    }
  }

  lemma {:induction false} StrLessTransitive(a: string, b: string, c: string)
    requires StrLess(a, b) && StrLess(b, c)
    ensures StrLess(a, c)
    decreases |a|
  {
    if a != [] && a[0] == b[0] && b[0] == c[0] {
      StrLessTransitive(a[1..], b[1..], c[1..]);
    }
  }

  // ---------------------------------------------------------------------
  // str(int)

  predicate IsDigit(c: char) {
    '0' <= c <= '9'
  }

  function DigitChar(d: nat): (c: char)
    requires d < 10
    ensures IsDigit(c)
  {
    ('0' as int + d) as char
  }

  /** `str(n)` for a non-negative integer: decimal digits, no leading zeros. */
  function NatToString(n: nat): (r: string)
    ensures r != []
    ensures forall k :: 0 <= k < |r| ==> IsDigit(r[k])
    decreases n
  {
    if n < 10 then [DigitChar(n)] else NatToString(n / 10) + [DigitChar(n % 10)]
  }

  /** `str(i)` for any integer. */
  function IntToString(i: int): (r: string)
    ensures r != []
    ensures forall k :: 0 <= k < |r| ==> r[k] == '-' || IsDigit(r[k])
  {
    if i < 0 then "-" + NatToString(-i) else NatToString(i)
  }

  function DigitValue(c: char): nat
    requires IsDigit(c)
  {
    c as int - '0' as int
  }

  predicate AllDigits(s: string) {
    forall k :: 0 <= k < |s| ==> IsDigit(s[k])
  }

  /** The inverse of NatToString: the value of a non-empty string of digits. */
  function ParseNat(s: string): nat
    requires s != [] && AllDigits(s)
    decreases |s|
  {
    if |s| == 1 then DigitValue(s[0])
    else 10 * ParseNat(s[..|s| - 1]) + DigitValue(s[|s| - 1])
  }

  /** The inverse of IntToString: an optional minus sign followed by digits. */
  function ParseInt(s: string): int
    requires s != []
    requires if s[0] == '-' then |s| > 1 && AllDigits(s[1..]) else AllDigits(s)
  {
    if s[0] == '-' then -(ParseNat(s[1..]) as int) else ParseNat(s)
  }

  lemma {:induction false} ParseNatToString(n: nat)
    ensures ParseNat(NatToString(n)) == n
    decreases n
  {
    if n >= 10 {
      var prefix := NatToString(n / 10);
      assert (prefix + [DigitChar(n % 10)])[..|prefix|] == prefix;
      ParseNatToString(n / 10);
    }
  }

  lemma ParseIntToString(i: int)
    ensures var r := IntToString(i);
      (if r[0] == '-' then |r| > 1 && AllDigits(r[1..]) else AllDigits(r)) && ParseInt(r) == i
  {
    if i < 0 {
      assert IntToString(i)[1..] == NatToString(-i);
      ParseNatToString(-i);
    } else {
      ParseNatToString(i);
    }
  }

  /** Distinct integers print differently. */
  lemma IntToStringInjective(a: int, b: int)
    requires IntToString(a) == IntToString(b)
    ensures a == b
  {
    ParseIntToString(a);
    ParseIntToString(b);
  }
}
