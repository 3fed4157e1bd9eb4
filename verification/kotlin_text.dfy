/** The Kotlin standard-library string operations the source relies on, with the
    semantics they have on the JVM: `isBlank`, `indexOf`, `lastIndexOf`,
    `contains(needle, ignoreCase = true)`, `lines`, `take` (which counts UTF-16 code units),
    `takeLast`. */
module KotlinText {
  import opened Strings

  /** `Char.isWhitespace()` on the JVM: `Character.isWhitespace` or `Character.isSpaceChar`
      (the ASCII controls TAB..CR and FS..US, and the Unicode space, line and paragraph
      separators). */
  predicate IsWhitespace(c: char) {
    || '\t' <= c <= '\r'
    || '\U{001C}' <= c <= ' '
    || c == '\U{00A0}' || c == '\U{1680}'
    || '\U{2000}' <= c <= '\U{200A}'
    || c == '\U{2028}' || c == '\U{2029}' || c == '\U{202F}' || c == '\U{205F}' || c == '\U{3000}'
  }

  /** `CharSequence.isBlank()`: empty or whitespace only. */
  predicate IsBlank(s: string) {
    forall i :: 0 <= i < |s| ==> IsWhitespace(s[i])
  }

  /** `String.indexOf(c)`: the first position of `c`, or -1. */
  function IndexOf(s: string, c: char): (r: int)
    ensures -1 <= r < |s|
    ensures r == -1 <==> c !in s
    ensures r >= 0 ==> s[r] == c && c !in s[..r]
    decreases |s|
  {
    if |s| == 0 then -1
    else if s[0] == c then 0
    else
      var k := IndexOf(s[1..], c);
      if k < 0 then -1 else k + 1
  }

  /** `String.lastIndexOf(c)`: the last position of `c`, or -1. */
  function LastIndexOf(s: string, c: char): (r: int)
    ensures -1 <= r < |s|
    ensures r == -1 <==> c !in s
    ensures r >= 0 ==> s[r] == c && c !in s[r + 1..]
    decreases |s|
  {
    if |s| == 0 then -1
    else if s[|s| - 1] == c then |s| - 1
    else LastIndexOf(s[..|s| - 1], c)
  }

  predicate IsAscii(s: string) {
    forall i :: 0 <= i < |s| ==> s[i] < '\U{0080}'
  }

  /** The case fold under which `Char.equals(other, ignoreCase = true)` identifies two
      characters when one of them is ASCII: ASCII letters fold to lower case, and the four
      non-ASCII characters whose JVM case mapping reaches an ASCII letter fold to it
      (dotless i and capital I with dot to `i`, long s to `s`, the Kelvin sign to `k`). */
  function Fold(c: char): char {
    if 'A' <= c <= 'Z' then (c as int + 32) as char
    else if c == '\U{0131}' || c == '\U{0130}' then 'i'
    else if c == '\U{017F}' then 's'
    else if c == '\U{212A}' then 'k'
    else c
  }

  /** `needle` occurs in `s` at position `i`, ignoring case. */
  predicate MatchesAt(s: string, i: int, needle: string)
    requires 0 <= i && i + |needle| <= |s|
  {
    forall k :: 0 <= k < |needle| ==> Fold(s[i + k]) == Fold(needle[k])
  }

  /** A text contains, ignoring case, every ASCII piece it is built from. */
  lemma ContainsPiece(a: string, needle: string, b: string)
    requires IsAscii(needle)
    ensures ContainsIgnoreCase(a + needle + b, needle)
  {
    var s := a + needle + b;
    forall k | 0 <= k < |needle|
      ensures Fold(s[|a| + k]) == Fold(needle[k])
    {
      assert s[|a| + k] == needle[k];
    }
    assert MatchesAt(s, |a|, needle);
  }

  /** `s.contains(needle, ignoreCase = true)` for an ASCII `needle`. */
  predicate ContainsIgnoreCase(s: string, needle: string)
    requires IsAscii(needle)
  {
    exists i :: 0 <= i && i + |needle| <= |s| && MatchesAt(s, i, needle)
  }

  /** `CharSequence.lines()`: splits at CRLF, LF and CR (CRLF counts as one break). A final
      line break yields a trailing empty line, and the empty text is one empty line. */
  function Lines(s: string): (r: seq<string>)
    ensures |r| >= 1
    ensures forall i :: 0 <= i < |r| ==> '\n' !in r[i] && '\r' !in r[i]
    decreases |s|
  {
    if |s| == 0 then [""]
    else if s[0] == '\n' then [""] + Lines(s[1..])
    else if s[0] == '\r' then
      if |s| > 1 && s[1] == '\n' then [""] + Lines(s[2..]) else [""] + Lines(s[1..])
    else
      var rest := Lines(s[1..]);
      [[s[0]] + rest[0]] + rest[1..]
  }

  /** The first line is the text up to, not including, the first line break. */
  lemma {:induction false} FirstLine(s: string)
    ensures IsPrefix(Lines(s)[0], s)
    ensures |Lines(s)[0]| == |s| || s[|Lines(s)[0]|] == '\n' || s[|Lines(s)[0]|] == '\r'
    decreases |s|
  {
    if |s| > 0 && s[0] != '\n' && s[0] != '\r' {
      FirstLine(s[1..]);
      var f := Lines(s[1..])[0];
      assert Lines(s)[0] == [s[0]] + f;
      assert s == [s[0]] + s[1..];
    }
  }

  /** A text without line breaks is its own first line. */
  lemma SingleLine(s: string)
    requires '\n' !in s && '\r' !in s
    ensures Lines(s)[0] == s
  {
    FirstLine(s);
  }

  /** The UTF-16 code units a character takes in a JVM string: a surrogate pair for a
      supplementary character, one unit otherwise. */
  function Utf16Units(c: char): nat {
    if c as int >= 0x1_0000 then 2 else 1
  }

  /** `String.length` on the JVM: the number of UTF-16 code units. */
  function Utf16Length(s: string): (k: nat)
    ensures k >= |s|
    decreases |s|
  {
    if |s| == 0 then 0 else Utf16Units(s[0]) + Utf16Length(s[1..])
  }

  lemma {:induction false} Utf16LengthConcat(a: string, b: string)
    ensures Utf16Length(a + b) == Utf16Length(a) + Utf16Length(b)
    decreases |a|
  {
    if |a| == 0 {
      assert a + b == b;
    } else {
      assert (a + b)[1..] == a[1..] + b;
      Utf16LengthConcat(a[1..], b);
    }
  }

  /** Texts whose characters take the same number of units position by position have the
      same UTF-16 length. */
  lemma {:induction false} SameUnits(a: string, b: string)
    requires |a| == |b|
    requires forall i :: 0 <= i < |a| ==> Utf16Units(a[i]) == Utf16Units(b[i])
    ensures Utf16Length(a) == Utf16Length(b)
    decreases |a|
  {
    if |a| > 0 {
      assert forall i :: 0 <= i < |a| - 1 ==> a[1..][i] == a[i + 1] && b[1..][i] == b[i + 1];
      SameUnits(a[1..], b[1..]);
    }
  }

  /** The longest prefix of `s` made of whole characters that fits in `n` code units: the
      characters `String.take(n)` keeps intact. */
  function TakeUnits(s: string, n: nat): (r: string)
    ensures IsPrefix(r, s) && Utf16Length(r) <= n
    ensures |r| < |s| ==> Utf16Length(r) + Utf16Units(s[|r|]) > n
    ensures |r| < |s| ==> Utf16Length(s) > n
    decreases |s|
  {
    if |s| == 0 || Utf16Units(s[0]) > n then ""
    else
      var rest := TakeUnits(s[1..], n - Utf16Units(s[0]));
      assert ([s[0]] + rest)[1..] == rest;
      assert s[..|rest| + 1] == [s[0]] + s[1..][..|rest|];
      [s[0]] + rest
  }

  /** `String.take(n)` as its text reaches a UTF-8 file: the first `n` code units. When the
      cut falls inside a surrogate pair, the high surrogate left over is written by the
      JVM's UTF-8 encoder as '?', so the text ends with '?' then. */
  function Take(s: string, n: nat): (r: string)
    ensures Utf16Length(r) == if Utf16Length(s) < n then Utf16Length(s) else n
    ensures |r| <= |s|
    ensures forall i :: 0 <= i < |r| ==> r[i] == s[i] || (i == |r| - 1 && r[i] == '?' && Utf16Units(s[i]) == 2)
  {
    var kept := TakeUnits(s, n);
    TakeCutLength(s, n);
    if |kept| < |s| && Utf16Length(kept) < n then kept + "?" else kept
  }

  /** A cut that does not fill `n` units stops one unit short, before a supplementary
      character, and appending the '?' makes up that unit. */
  lemma TakeCutLength(s: string, n: nat)
    ensures
      var kept := TakeUnits(s, n);
      && (|kept| < |s| && Utf16Length(kept) < n ==>
            Utf16Length(kept) + 1 == n && Utf16Units(s[|kept|]) == 2 && Utf16Length(kept + "?") == n)
      && (|kept| == |s| ==> kept == s)
  {
    var kept := TakeUnits(s, n);
    Utf16LengthConcat(kept, "?");
    assert Utf16Length("?") == 1;
  }

  /** `List.takeLast(n)`: the last `n` elements, or all of them. */
  function TakeLast<T>(xs: seq<T>, n: nat): (r: seq<T>)
    ensures |r| == if |xs| < n then |xs| else n
    ensures r == xs[|xs| - |r|..]
  {
    if |xs| <= n then xs else xs[|xs| - n..]
  }

  /** Without carriage returns, `lines()` is splitting at line feeds. */
  lemma {:induction false} LinesWithoutCr(s: string)
    requires '\r' !in s
    ensures Lines(s) == Split(s, '\n')
    decreases |s|
  {
    if |s| > 0 {
      assert '\r' !in s[1..];
      LinesWithoutCr(s[1..]);
    }
  }

  /** Joining lines with line feeds and splitting the result with `lines()` gives the
      lines back. */
  lemma LinesOfJoin(ls: seq<string>)
    requires |ls| >= 1
    requires forall i :: 0 <= i < |ls| ==> '\n' !in ls[i] && '\r' !in ls[i]
    ensures Lines(Join(ls, "\n")) == ls
  {
    JoinAvoids(ls, "\n", '\r');
    LinesWithoutCr(Join(ls, "\n"));
    SplitJoin(ls, '\n');
  }

  /** Text without carriage returns is the join of its lines. */
  lemma JoinOfLines(s: string)
    requires '\r' !in s
    ensures Join(Lines(s), "\n") == s
  {
    LinesWithoutCr(s);
    JoinSplit(s, '\n');
  }
}
