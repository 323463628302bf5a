/**
 * The Python string and list primitives that the query pipeline of app.py is
 * built from: `str.strip`, `str.replace`, the substring test `p in s`,
 * `str.lower`, `sep.join(parts)`, `str.split` (the inverse of `join`, used to
 * state what the rendered schema text means) and `range`.
 *
 * Whitespace and letter case are restricted to ASCII.
 */
module PyText {

  /** A character `str.strip()` removes: space, tab, newline, carriage return,
      vertical tab (0x0B) and form feed (0x0C). */
  predicate IsSpace(c: char) {
    c == ' ' || c == '\t' || c == '\n' || c == '\r' || c as int == 0x0B || c as int == 0x0C
  }

  /** `s` neither starts nor ends with whitespace. */
  predicate IsTrimmed(s: string) {
    s == [] || (!IsSpace(s[0]) && !IsSpace(s[|s| - 1]))
  }

  // ---------------------------------------------------------------- strip

  /** `s.lstrip()`: leading whitespace is dropped one character at a time. */
  function StripLeft(s: string): string
    decreases |s|
  {
    if |s| > 0 && IsSpace(s[0]) then StripLeft(s[1..]) else s
  }

  /** `s.rstrip()`: trailing whitespace is dropped one character at a time. */
  function StripRight(s: string): string
    decreases |s|
  {
    if |s| > 0 && IsSpace(s[|s| - 1]) then StripRight(s[..|s| - 1]) else s
  }

  /** `lstrip()` returns the longest suffix of `s` that does not start with
      whitespace: a suffix, everything in front of it whitespace. */
  lemma {:induction false} StripLeftSpec(s: string)
    ensures |StripLeft(s)| <= |s| && StripLeft(s) == s[|s| - |StripLeft(s)|..]
    ensures forall k :: 0 <= k < |s| - |StripLeft(s)| ==> IsSpace(s[k])
    ensures StripLeft(s) == [] || !IsSpace(StripLeft(s)[0])
    decreases |s|
  {
    if |s| > 0 && IsSpace(s[0]) {
      var t := s[1..];
      StripLeftSpec(t);
      var r := StripLeft(t);
      assert t[|t| - |r|..] == s[|s| - |r|..];
      forall k | 0 <= k < |s| - |r| ensures IsSpace(s[k]) {
        if k > 0 { assert s[k] == t[k - 1]; }
      }
    }
  }

  /** `rstrip()` returns the longest prefix of `s` that does not end with
      whitespace: a prefix, everything after it whitespace. */
  lemma {:induction false} StripRightSpec(s: string)
    ensures |StripRight(s)| <= |s| && StripRight(s) == s[..|StripRight(s)|]
    ensures forall k :: |StripRight(s)| <= k < |s| ==> IsSpace(s[k])
    ensures StripRight(s) == [] || !IsSpace(StripRight(s)[|StripRight(s)| - 1])
    decreases |s|
  {
    if |s| > 0 && IsSpace(s[|s| - 1]) {
      var t := s[..|s| - 1];
      StripRightSpec(t);
      var r := StripRight(t);
      assert t[..|r|] == s[..|r|];
      forall k | |r| <= k < |s| ensures IsSpace(s[k]) {
        if k < |s| - 1 { assert s[k] == t[k]; }
      }
    }
  }

  /** `s.strip()`. */
  function Strip(s: string): string
  {
    StripRight(StripLeft(s))
  }

  /** `strip` removes whitespace and only whitespace, from both ends: the
      result is the slice `s[i..i + |Strip(s)|]` and everything around it is
      whitespace. */
  lemma StripIsSlice(s: string) returns (i: nat)
    ensures i + |Strip(s)| <= |s| && Strip(s) == s[i..i + |Strip(s)|]
    ensures forall k :: 0 <= k < i ==> IsSpace(s[k])
    ensures forall k :: i + |Strip(s)| <= k < |s| ==> IsSpace(s[k])
  {
    var l := StripLeft(s);
    StripLeftSpec(s);
    StripRightSpec(l);
    i := |s| - |l|;
    var r := StripRight(l);
    assert r == s[i..][..|r|] == s[i..i + |r|];
    forall k | i + |r| <= k < |s| ensures IsSpace(s[k]) {
      assert s[k] == l[k - i];
    }
  }

  /** What `strip` returns neither starts nor ends with whitespace. */
  lemma StripIsTrimmed(s: string)
    ensures IsTrimmed(Strip(s))
  {
    var l := StripLeft(s);
    StripLeftSpec(s);
    StripRightSpec(l);
    var r := StripRight(l);
    if r != [] {
      assert r[0] == l[0];
    }
  }

  /** Stripping a trimmed string changes nothing. */
  lemma StripTrimmed(s: string)
    requires IsTrimmed(s)
    ensures Strip(s) == s
  {
    assert StripLeft(s) == s;
  }

  /** Leading whitespace does not change what `lstrip()` returns. */
  lemma {:induction false} StripLeftSpaces(w: string, x: string)
    requires forall k :: 0 <= k < |w| ==> IsSpace(w[k])
    ensures StripLeft(w + x) == StripLeft(x)
    decreases |w|
  {
    if w != [] {
      assert (w + x)[0] == w[0];
      assert (w + x)[1..] == w[1..] + x;
      StripLeftSpaces(w[1..], x);
    } else {
      assert w + x == x;
    }
  }

  /** Trailing whitespace does not change what `rstrip()` returns. */
  lemma {:induction false} StripRightSpaces(x: string, w: string)
    requires forall k :: 0 <= k < |w| ==> IsSpace(w[k])
    ensures StripRight(x + w) == StripRight(x)
    decreases |w|
  {
    if w != [] {
      assert (x + w)[|x + w| - 1] == w[|w| - 1];
      assert (x + w)[..|x + w| - 1] == x + w[..|w| - 1];
      StripRightSpaces(x, w[..|w| - 1]);
    } else {
      assert x + w == x;
    }
  }

  /** `strip()` returns exactly what lies between surrounding whitespace. */
  lemma StripAround(before: string, core: string, after: string)
    requires forall k :: 0 <= k < |before| ==> IsSpace(before[k])
    requires forall k :: 0 <= k < |after| ==> IsSpace(after[k])
    requires IsTrimmed(core)
    ensures Strip(before + core + after) == core
  {
    assert before + core + after == before + (core + after);
    StripLeftSpaces(before, core + after);
    if core == [] {
      assert core + after == after + [];
      StripLeftSpaces(after, []);
      assert StripLeft(core + after) == [];
    } else {
      assert (core + after)[0] == core[0];
      assert StripLeft(core + after) == core + after;
      StripRightSpaces(core, after);
    }
  }

  // ------------------------------------------------------ substring test

  /** Python's `p in s` on strings: `p` occurs somewhere in `s` (the empty
      string occurs everywhere). */
  predicate Contains(s: string, p: string)
    decreases |s|
  {
    p <= s || (|s| > 0 && Contains(s[1..], p))
  }

  /** `p` occurs in `s` at index `i`. */
  ghost predicate OccursAt(s: string, p: string, i: int) {
    0 <= i <= |s| && p <= s[i..]
  }

  /** The scanning test agrees with the index-based definition of an occurrence. */
  lemma {:induction false} ContainsIff(s: string, p: string)
    ensures Contains(s, p) <==> exists i :: OccursAt(s, p, i)
    decreases |s|
  {
    if Contains(s, p) {
      if p <= s {
        assert OccursAt(s, p, 0);
      } else {
        ContainsIff(s[1..], p);
        var i :| OccursAt(s[1..], p, i);
        assert s[1..][i..] == s[i + 1..];
        assert OccursAt(s, p, i + 1);
      }
    }
    if exists i :: OccursAt(s, p, i) {
      var i :| OccursAt(s, p, i);
      if i > 0 {
        assert s[1..][i - 1..] == s[i..];
        assert OccursAt(s[1..], p, i - 1);
        ContainsIff(s[1..], p);
      }
    }
  }

  /** An occurrence inside a slice is an occurrence in the whole string. */
  lemma ContainsInSlice(s: string, a: nat, b: nat, p: string)
    requires a <= b <= |s|
    requires Contains(s[a..b], p)
    ensures Contains(s, p)
  {
    ContainsIff(s[a..b], p);
    var i :| OccursAt(s[a..b], p, i);
    assert s[a..b][i..] == s[a + i..b];
    assert s[a + i..b] <= s[a + i..];
    assert OccursAt(s, p, a + i);
    ContainsIff(s, p);
  }

  /** A string that contains `p + more` contains `p`. */
  lemma {:induction false} ContainsExtended(s: string, p: string, more: string)
    requires Contains(s, p + more)
    ensures Contains(s, p)
    decreases |s|
  {
    if !(p + more <= s) {
      ContainsExtended(s[1..], p, more);
    }
  }

  /** `strip` adds no occurrence: what occurs in `s.strip()` occurs in `s`. */
  lemma StripContained(s: string, p: string)
    requires Contains(Strip(s), p)
    ensures Contains(s, p)
  {
    var i := StripIsSlice(s);
    ContainsInSlice(s, i, i + |Strip(s)|, p);
  }

  /** Every character of a pattern that occurs in `s` is a character of `s`. */
  lemma ContainedCharsOccur(s: string, p: string, j: nat)
    requires j < |p| && Contains(s, p)
    ensures p[j] in s
  {
    ContainsIff(s, p);
    var i :| OccursAt(s, p, i);
    assert s[i..][j] == p[j];
  }

  // ------------------------------------------------------------- replace

  /** Python's `s.replace(pat, repl)`: scanning left to right, every leftmost,
      non-overlapping occurrence of `pat` is replaced by `repl`; an empty `pat`
      inserts `repl` before every character and once at the end. */
  function Replace(s: string, pat: string, repl: string): string
    decreases |s|
  {
    if |pat| == 0 then
      if |s| == 0 then repl else repl + [s[0]] + Replace(s[1..], pat, repl)
    else if pat <= s then repl + Replace(s[|pat|..], pat, repl)
    else if |s| == 0 then []
    else [s[0]] + Replace(s[1..], pat, repl)
  }

  /** Replacing a pattern that does not occur changes nothing. */
  lemma {:induction false} ReplaceAbsent(s: string, pat: string, repl: string)
    requires |pat| > 0 && !Contains(s, pat)
    ensures Replace(s, pat, repl) == s
    decreases |s|
  {
    if |s| > 0 {
      ReplaceAbsent(s[1..], pat, repl);
    }
  }

  /** Replacing a pattern by itself changes nothing. */
  lemma {:induction false} ReplaceBySelf(s: string, pat: string)
    ensures Replace(s, pat, pat) == s
    decreases |s|
  {
    if |pat| == 0 {
      if |s| > 0 {
        ReplaceBySelf(s[1..], pat);
      }
    } else if pat <= s {
      ReplaceBySelf(s[|pat|..], pat);
      assert s == pat + s[|pat|..];
    } else if |s| > 0 {
      ReplaceBySelf(s[1..], pat);
    }
  }

  /** A pattern longer than the string is never found, so nothing is replaced. */
  lemma {:induction false} ReplaceShort(s: string, pat: string, repl: string)
    requires |s| < |pat|
    ensures Replace(s, pat, repl) == s
    decreases |s|
  {
    if |s| > 0 {
      ReplaceShort(s[1..], pat, repl);
    }
  }

  /** A stretch that lacks the pattern's first character is copied unchanged. */
  lemma {:induction false} ReplaceSkip(a: string, b: string, pat: string, repl: string)
    requires |pat| > 0 && pat[0] !in a
    ensures Replace(a + b, pat, repl) == a + Replace(b, pat, repl)
    decreases |a|
  {
    if a == [] {
      assert a + b == b;
    } else {
      var s := a + b;
      assert s[0] == a[0] && s[1..] == a[1..] + b;
      assert !(pat <= s);
      ReplaceSkip(a[1..], b, pat, repl);
      assert [a[0]] + (a[1..] + Replace(b, pat, repl)) == a + Replace(b, pat, repl);
    }
  }

  // ---------------------------------------------------------------- lower

  /** The ASCII part of `str.lower()` on one character. */
  function LowerChar(c: char): (d: char)
    ensures !('A' <= d <= 'Z')
    ensures d != c ==> 'a' <= d <= 'z' && (d as int - 32) as char == c
  {
    if 'A' <= c <= 'Z' then (c as int + 32) as char else c
  }

  /** `s.lower()`, one character at a time. */
  function Lower(s: string): (r: string)
    ensures |r| == |s|
    ensures forall k :: 0 <= k < |s| ==> r[k] == LowerChar(s[k])
  {
    if s == [] then [] else [LowerChar(s[0])] + Lower(s[1..])
  }

  /** Two strings that differ at most in ASCII letter case. */
  ghost predicate SameUpToCase(a: string, b: string) {
    |a| == |b| && forall k :: 0 <= k < |a| ==> LowerChar(a[k]) == LowerChar(b[k])
  }

  /** Strings that differ only in letter case have the same lower-case form. */
  lemma LowerIgnoresCase(a: string, b: string)
    requires SameUpToCase(a, b)
    ensures Lower(a) == Lower(b)
  {
    assert forall k :: 0 <= k < |a| ==> Lower(a)[k] == Lower(b)[k];
  }

  /** Lower-casing twice is lower-casing once. */
  lemma LowerIdempotent(s: string)
    ensures Lower(Lower(s)) == Lower(s)
  {
    assert forall k :: 0 <= k < |s| ==> Lower(Lower(s))[k] == Lower(s)[k];
  }

  /** Lower-casing produces no character that was not there, except the
      lower-case form of an upper-case letter. */
  lemma InLower(s: string, c: char)
    requires c in Lower(s)
    ensures c in s || ('a' <= c <= 'z' && (c as int - 32) as char in s)
  {
    var k :| 0 <= k < |s| && Lower(s)[k] == c;
    assert LowerChar(s[k]) == c;
  }

  // ----------------------------------------------------------- join/split

  /** `sep.join(parts)`. */
  function Join(sep: string, parts: seq<string>): string
  {
    if |parts| == 0 then []
    else if |parts| == 1 then parts[0]
    else parts[0] + sep + Join(sep, parts[1..])
  }

  /** `s.split(sep)` for a non-empty separator. */
  function Split(s: string, sep: string): (r: seq<string>)
    requires |sep| > 0
    ensures |r| > 0
  {
    SplitFrom(s, sep, [])
  }

  /** The rest of `s.split(sep)` when `field` has been read since the last separator. */
  function SplitFrom(s: string, sep: string, field: string): (r: seq<string>)
    requires |sep| > 0
    ensures |r| > 0
    decreases |s|
  {
    if sep <= s then [field] + SplitFrom(s[|sep|..], sep, [])
    else if |s| == 0 then [field]
    else SplitFrom(s[1..], sep, field + [s[0]])
  }

  /** A stretch without the separator's first character is read into the current field. */
  lemma {:induction false} SplitFromChunk(c: string, rest: string, sep: string, field: string)
    requires |sep| > 0 && sep[0] !in c
    ensures SplitFrom(c + rest, sep, field) == SplitFrom(rest, sep, field + c)
    decreases |c|
  {
    if c == [] {
      assert c + rest == rest;
      assert field + c == field;
    } else {
      assert (c + rest)[0] == c[0];
      assert (c + rest)[1..] == c[1..] + rest;
      assert field + [c[0]] + c[1..] == field + c;
      SplitFromChunk(c[1..], rest, sep, field + [c[0]]);
    }
  }

  /** `split` undoes `join` when no part contains the separator's first
      character: the parts come back, all of them and in their order. */
  lemma {:induction false} SplitJoin(parts: seq<string>, sep: string)
    requires |parts| > 0 && |sep| > 0
    requires forall k :: 0 <= k < |parts| ==> sep[0] !in parts[k]
    ensures Split(Join(sep, parts), sep) == parts
    decreases |parts|
  {
    if |parts| == 1 {
      SplitFromChunk(parts[0], [], sep, []);
      assert parts[0] + [] == parts[0];
      assert [] + parts[0] == parts[0];
    } else {
      var tail := Join(sep, parts[1..]);
      assert Join(sep, parts) == parts[0] + (sep + tail);
      SplitFromChunk(parts[0], sep + tail, sep, []);
      assert [] + parts[0] == parts[0];
      assert (sep + tail)[|sep|..] == tail;
      SplitJoin(parts[1..], sep);
      assert parts == [parts[0]] + parts[1..];
    }
  }

  // ---------------------------------------------------------------- range

  /** `list(range(lo, hi))`. */
  function Range(lo: int, hi: int): (r: seq<int>)
    ensures |r| == if lo < hi then hi - lo else 0
    ensures forall k :: 0 <= k < |r| ==> r[k] == lo + k
    decreases hi - lo
  {
    if lo < hi then [lo] + Range(lo + 1, hi) else []
  }
}
