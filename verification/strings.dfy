/** Generic operations on strings and sequences of strings, with the algebra the rest
    of the model needs: joining, splitting on one character, replacing one character,
    prefixes and suffixes. */
module Strings {

  /** `parts` with `sep` between consecutive elements (Kotlin's `joinToString(sep)`). */
  function Join(parts: seq<string>, sep: string): string
  {
    if |parts| == 0 then ""
    else if |parts| == 1 then parts[0]
    else parts[0] + sep + Join(parts[1..], sep)
  }

  /** Splits `s` at every occurrence of `c`; the pieces never contain `c`. */
  function Split(s: string, c: char): (r: seq<string>)
    ensures |r| >= 1
    ensures forall i :: 0 <= i < |r| ==> c !in r[i]
    decreases |s|
  {
    if |s| == 0 then [""]
    else if s[0] == c then [""] + Split(s[1..], c)
    else
      var rest := Split(s[1..], c);
      [[s[0]] + rest[0]] + rest[1..]
  }

  /** Every occurrence of `c` in `s` replaced by `with`. */
  function ReplaceChar(s: string, c: char, with: string): string
    decreases |s|
  {
    if |s| == 0 then ""
    else (if s[0] == c then with else [s[0]]) + ReplaceChar(s[1..], c, with)
  }

  predicate IsPrefix(p: string, s: string) {
    |p| <= |s| && s[..|p|] == p
  }

  predicate IsSuffix(t: string, s: string) {
    |t| <= |s| && s[|s| - |t|..] == t
  }

  /** No part contains `c`. */
  predicate NoneContains(parts: seq<string>, c: char) {
    forall i :: 0 <= i < |parts| ==> c !in parts[i]
  }

  lemma {:induction false} ReplaceConcat(a: string, b: string, c: char, with: string)
    ensures ReplaceChar(a + b, c, with) == ReplaceChar(a, c, with) + ReplaceChar(b, c, with)
    decreases |a|
  {
    if |a| == 0 {
      assert a + b == b;
    } else {
      assert (a + b)[1..] == a[1..] + b;
      ReplaceConcat(a[1..], b, c, with);
    }
  }

  /** Replacing a character by a single character keeps every position and changes only
      the occurrences of `c`. */
  lemma {:induction false} ReplaceByChar(s: string, c: char, d: char)
    ensures |ReplaceChar(s, c, [d])| == |s|
    ensures forall i :: 0 <= i < |s| ==> ReplaceChar(s, c, [d])[i] == if s[i] == c then d else s[i]
    decreases |s|
  {
    if |s| > 0 {
      ReplaceByChar(s[1..], c, d);
      var r := ReplaceChar(s, c, [d]);
      assert r == [if s[0] == c then d else s[0]] + ReplaceChar(s[1..], c, [d]);
      forall i | 1 <= i < |s|
        ensures r[i] == if s[i] == c then d else s[i]
      {
        assert s[1..][i - 1] == s[i];
      }
    }
  }

  lemma {:induction false} ReplaceAbsent(s: string, c: char, with: string)
    requires c !in s
    ensures ReplaceChar(s, c, with) == s
    decreases |s|
  {
    if |s| > 0 {
      assert c !in s[1..];
      ReplaceAbsent(s[1..], c, with);
    }
  }

  /** Replacing a one-character separator that occurs in no part re-joins the parts
      with the replacement as separator. */
  lemma {:induction false} ReplaceJoin(parts: seq<string>, c: char, with: string)
    requires NoneContains(parts, c)
    ensures ReplaceChar(Join(parts, [c]), c, with) == Join(parts, with)
    decreases |parts|
  {
    if |parts| == 0 {
    } else if |parts| == 1 {
      ReplaceAbsent(parts[0], c, with);
    } else {
      var rest := Join(parts[1..], [c]);
      ReplaceConcat(parts[0] + [c], rest, c, with);
      ReplaceConcat(parts[0], [c], c, with);
      ReplaceAbsent(parts[0], c, with);
      assert ReplaceChar([c], c, with) == with;
      ReplaceJoin(parts[1..], c, with);
      assert parts[0] + [c] + rest == Join(parts, [c]);
    }
  }

  /** Splitting text whose first piece has no `c` keeps that piece in front. */
  lemma {:induction false} SplitPrefix(p: string, rest: string, c: char)
    requires c !in p
    ensures Split(p + rest, c) == [p + Split(rest, c)[0]] + Split(rest, c)[1..]
    decreases |p|
  {
    if |p| == 0 {
      var r := Split(rest, c);
      assert p + rest == rest;
      assert p + r[0] == r[0];
      assert r == [r[0]] + r[1..];
    } else {
      assert (p + rest)[0] == p[0];
      assert (p + rest)[1..] == p[1..] + rest;
      SplitPrefix(p[1..], rest, c);
      assert [p[0]] + (p[1..] + Split(rest, c)[0]) == p + Split(rest, c)[0];
    }
  }

  /** Split inverts Join when the separator occurs in no part. */
  lemma {:induction false} SplitJoin(parts: seq<string>, c: char)
    requires |parts| >= 1
    requires NoneContains(parts, c)
    ensures Split(Join(parts, [c]), c) == parts
    decreases |parts|
  {
    if |parts| == 1 {
      SplitPrefix(parts[0], "", c);
      assert parts[0] + "" == parts[0];
    } else {
      var tail := Join(parts[1..], [c]);
      SplitJoin(parts[1..], c);
      assert ([c] + tail)[0] == c;
      assert ([c] + tail)[1..] == tail;
      assert Split([c] + tail, c) == [""] + Split(tail, c);
      assert Join(parts, [c]) == parts[0] + ([c] + tail);
      SplitPrefix(parts[0], [c] + tail, c);
      assert parts[0] + "" == parts[0];
      assert parts == [parts[0]] + parts[1..];
    }
  }

  /** Join inverts Split. */
  lemma {:induction false} JoinSplit(s: string, c: char)
    ensures Join(Split(s, c), [c]) == s
    decreases |s|
  {
    if |s| > 0 {
      JoinSplit(s[1..], c);
      var rest := Split(s[1..], c);
      if s[0] == c {
        assert Split(s, c) == [""] + rest;
        assert s == [c] + s[1..];
      } else {
        var r := Split(s, c);
        assert r == [[s[0]] + rest[0]] + rest[1..];
        if |rest| == 1 {
          assert s == [s[0]] + rest[0];
        } else {
          assert Join(rest, [c]) == rest[0] + [c] + Join(rest[1..], [c]);
          assert r[1..] == rest[1..];
          assert s == [s[0]] + s[1..];
        }
      }
    }
  }

  /** Joining a tail of the parts gives a suffix of joining them all. */
  lemma {:induction false} JoinDropIsSuffix(parts: seq<string>, k: nat, sep: string)
    requires k <= |parts|
    ensures IsSuffix(Join(parts[k..], sep), Join(parts, sep))
    decreases k
  {
    if k > 0 {
      JoinDropIsSuffix(parts[1..], k - 1, sep);
      assert parts[1..][k - 1..] == parts[k..];
      var whole := Join(parts, sep);
      var mid := Join(parts[1..], sep);
      if |parts| == 1 {
        assert parts[k..] == [];
      } else {
        assert whole == (parts[0] + sep) + mid;
        assert whole[|whole| - |mid|..] == mid;
      }
    }
  }

  /** A character in neither the parts nor the separator is not in their join. */
  lemma {:induction false} JoinAvoids(parts: seq<string>, sep: string, c: char)
    requires NoneContains(parts, c) && c !in sep
    ensures c !in Join(parts, sep)
    decreases |parts|
  {
    if |parts| > 1 {
      JoinAvoids(parts[1..], sep, c);
    }
  }
}
