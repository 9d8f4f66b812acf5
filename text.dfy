/**
  The pieces of Python's `str` and `re` behaviour that the naming scheme and
  the OCR ranking rely on, as functions over `seq<char>`: the `\s` and `\d`
  character classes, `strip`, `join`, `replace(old, '')`, `lower` and
  `endswith`.
 */
module Text {

  /** The code points Python's `str.isspace` (and the `\s` class of `re` on
      `str` patterns) accepts, as ranges with both ends included. */
  const SpaceRanges: seq<(int, int)> := [
    (0x20, 0x20), (0x09, 0x0D), (0x1C, 0x1F), (0x85, 0x85), (0xA0, 0xA0), (0x1680, 0x1680),
    (0x2000, 0x200A), (0x2028, 0x2029), (0x202F, 0x202F), (0x205F, 0x205F), (0x3000, 0x3000)]

  predicate InRanges(n: int, ranges: seq<(int, int)>) {
    ranges != [] && (ranges[0].0 <= n <= ranges[0].1 || InRanges(n, ranges[1..]))
  }

  predicate IsSpace(c: char) {
    InRanges(c as int, SpaceRanges)
  }

  lemma {:induction false} OutsideRanges(n: int, ranges: seq<(int, int)>)
    requires forall r | r in ranges :: n < r.0 || r.1 < n
    ensures !InRanges(n, ranges)
  {
    if ranges != [] {
      assert ranges[0] in ranges;
      OutsideRanges(n, ranges[1..]);
    }
  }

  /** The space and the tab are whitespace. */
  lemma SpaceAndTab()
    ensures IsSpace(' ') && IsSpace('\t')
  {
  }

  /** Printable ASCII and every code point past the last whitespace one are
      not whitespace. */
  lemma NotSpace(c: char)
    requires 0x21 <= c as int <= 0x84 || 0x3000 < c as int
    ensures !IsSpace(c)
  {
    var n := c as int;
    if n <= 0x84 {
      assert forall r | r in SpaceRanges :: r.1 < n || n < r.0;
    } else {
      assert forall r | r in SpaceRanges :: r.1 < n;
    }
    OutsideRanges(n, SpaceRanges);
  }

  /** The `\d` class, restricted to the ASCII digits. */
  predicate IsDigit(c: char) {
    '0' <= c <= '9'
  }

  /** Code points 0x00 to 0x1F. */
  predicate IsControl(c: char) {
    c as int <= 0x1F
  }

  /** The character class `[<>:"/\\|?*\x00-\x1f]` used for file names. */
  predicate IsForbidden(c: char) {
    c == '<' || c == '>' || c == ':' || c == '"' || c == '/' || c == '\\'
    || c == '|' || c == '?' || c == '*' || IsControl(c)
  }

  predicate NoForbidden(s: string) {
    forall c | c in s :: !IsForbidden(c)
  }

  lemma NoForbiddenSlice(s: string, i: nat, j: nat)
    requires i <= j <= |s| && NoForbidden(s)
    ensures NoForbidden(s[i..j])
  {
    forall c | c in s[i..j] ensures !IsForbidden(c) {
      var m :| 0 <= m < j - i && s[i..j][m] == c;
      assert s[i + m] == c;
    }
  }

  predicate AllDigits(s: string) {
    forall i :: 0 <= i < |s| ==> IsDigit(s[i])
  }

  /** The length of the run of whitespace `s` starts with (what `\s+`
      matches at the front, or nothing). */
  function SpaceRun(s: string): (n: nat)
    ensures n <= |s|
    ensures s != [] && IsSpace(s[0]) ==> n > 0
  {
    if s != [] && IsSpace(s[0]) then 1 + SpaceRun(s[1..]) else 0
  }

  /** The run is all whitespace, and the character after it, if any, is not. */
  lemma {:induction false} SpaceRunFacts(s: string)
    ensures forall i :: 0 <= i < SpaceRun(s) ==> IsSpace(s[i])
    ensures SpaceRun(s) < |s| ==> !IsSpace(s[SpaceRun(s)])
  {
    if s != [] && IsSpace(s[0]) {
      SpaceRunFacts(s[1..]);
      assert forall i :: 0 < i < |s| ==> s[i] == s[1..][i - 1];
    }
  }

  /** `s.strip()`: leading and trailing whitespace dropped, leaving no
      whitespace at either end. */
  function Strip(s: string): (r: string)
    decreases |s|
    ensures r != [] ==> !IsSpace(r[0]) && !IsSpace(r[|r| - 1])
  {
    if s != [] && IsSpace(s[0]) then Strip(s[1..])
    else if s != [] && IsSpace(s[|s| - 1]) then Strip(s[..|s| - 1])
    else s
  }

  /** Stripping gives the empty string exactly when everything is whitespace. */
  lemma {:induction false} StripEmpty(s: string)
    decreases |s|
    ensures Strip(s) == [] <==> forall i :: 0 <= i < |s| ==> IsSpace(s[i])
  {
    if s != [] && IsSpace(s[0]) {
      StripEmpty(s[1..]);
      assert forall i :: 0 < i < |s| ==> s[i] == s[1..][i - 1];
    } else if s != [] && IsSpace(s[|s| - 1]) {
      StripEmpty(s[..|s| - 1]);
      assert forall i :: 0 <= i < |s| - 1 ==> s[i] == s[..|s| - 1][i];
    }
  }

  // The lemmas below are sequence identities that Dafny proves unaided; they
  // are stated on their own so that callers with a large context can use
  // them without the solver searching for them there.

  lemma SliceOfTail(s: string, j: nat, n: nat)
    requires s != [] && j + n <= |s| - 1
    ensures s[1..][j..j + n] == s[j + 1..j + 1 + n]
  {
  }

  lemma SliceOfInit(s: string, k: nat, n: nat)
    requires s != [] && k + n <= |s| - 1
    ensures s[..|s| - 1][k..k + n] == s[k..k + n]
  {
  }

  /** The stripped text is the slice of the original starting at `k`, and
      everything cut off on either side is whitespace. */
  lemma {:induction false} StripSlice(s: string) returns (k: nat)
    decreases |s|
    ensures k + |Strip(s)| <= |s| && Strip(s) == s[k..k + |Strip(s)|]
    ensures forall i :: 0 <= i < k ==> IsSpace(s[i])
    ensures forall i :: k + |Strip(s)| <= i < |s| ==> IsSpace(s[i])
  {
    if s != [] && IsSpace(s[0]) {
      var j := StripSlice(s[1..]);
      SliceOfTail(s, j, |Strip(s[1..])|);
      k := j + 1;
      forall i | 0 < i < |s| ensures s[i] == s[1..][i - 1] {
      }
    } else if s != [] && IsSpace(s[|s| - 1]) {
      k := StripSlice(s[..|s| - 1]);
      SliceOfInit(s, k, |Strip(s[..|s| - 1])|);
      forall i | 0 <= i < |s| - 1 ensures s[i] == s[..|s| - 1][i] {
      }
    } else {
      k := 0;
    }
  }

  /** A string with no whitespace at either end is left alone by `strip`. */
  lemma StripTrimmed(s: string)
    requires s == [] || (!IsSpace(s[0]) && !IsSpace(s[|s| - 1]))
    ensures Strip(s) == s
  {
  }

  // The lemmas below are sequence identities that Dafny proves unaided; they
  // are stated on their own so that callers with a large context can use
  // them without the solver searching for them there.

  lemma SplitAt(s: string, n: nat)
    requires n <= |s|
    ensures s == s[..n] + s[n..]
  {
  }

  lemma Uncons(s: string)
    requires s != []
    ensures s == [s[0]] + s[1..]
  {
  }

  lemma Assoc(a: string, b: string, c: string)
    ensures a + b + c == a + (b + c)
  {
  }

  lemma Unsnoc(s: string)
    requires s != []
    ensures s == s[..|s| - 1] + [s[|s| - 1]]
  {
  }

  /** `sep.join(ts)`. */
  function Join(ts: seq<string>, sep: string): string {
    if ts == [] then ""
    else if |ts| == 1 then ts[0]
    else ts[0] + sep + Join(ts[1..], sep)
  }

  /** Joining pieces that are non-empty and trimmed gives a string that is
      non-empty and trimmed. */
  lemma {:induction false} JoinTrimmed(ts: seq<string>, sep: string)
    requires ts != []
    requires forall k :: 0 <= k < |ts| ==> ts[k] != [] && !IsSpace(ts[k][0]) && !IsSpace(ts[k][|ts[k]| - 1])
    ensures var j := Join(ts, sep); j != [] && !IsSpace(j[0]) && !IsSpace(j[|j| - 1])
  {
    if |ts| > 1 {
      JoinTrimmed(ts[1..], sep);
      var rest := Join(ts[1..], sep);
      assert Join(ts, sep) == ts[0] + sep + rest;
      assert Join(ts, sep)[0] == ts[0][0];
    }
  }

  /** Whether `pat` occurs anywhere in `s` (`pat in s`). */
  predicate Contains(s: string, pat: string) {
    |s| >= |pat| && (s[..|pat|] == pat || (s != [] && Contains(s[1..], pat)))
  }

  /** `s.replace(pat, '')`: deletes the occurrences of `pat` found scanning from
      the left, none overlapping. */
  function DeleteAll(s: string, pat: string): (r: string)
    requires pat != []
    ensures |r| <= |s|
  {
    if |s| < |pat| then s
    else if s[..|pat|] == pat then DeleteAll(s[|pat|..], pat)
    else [s[0]] + DeleteAll(s[1..], pat)
  }

  /** A string that does not contain `pat` is unchanged by the deletion. */
  lemma {:induction false} DeleteAllAbsent(s: string, pat: string)
    requires pat != [] && !Contains(s, pat)
    ensures DeleteAll(s, pat) == s
  {
    if |s| >= |pat| {
      DeleteAllAbsent(s[1..], pat);
      assert [s[0]] + s[1..] == s;
    }
  }

  /** A separator that cannot be part of `pat` splits the deletion in two. */
  lemma {:induction false} DeleteAllSplit(x: string, sep: char, y: string, pat: string)
    requires pat != [] && sep !in pat
    ensures DeleteAll(x + ([sep] + y), pat) == DeleteAll(x, pat) + ([sep] + DeleteAll(y, pat))
  {
    var s := x + ([sep] + y);
    if |x| < |pat| <= |s| {
      assert s[..|pat|][|x|] == sep;
    }
    if |s| < |pat| {
      assert DeleteAll(x, pat) == x && DeleteAll(y, pat) == y;
    } else if x == [] {
      assert s[0] == sep && s[..|pat|][0] == sep;
      assert s[..|pat|] != pat;
      assert s[1..] == y;
    } else if s[..|pat|] == pat {
      assert x[..|pat|] == pat;
      assert s[|pat|..] == x[|pat|..] + ([sep] + y);
      DeleteAllSplit(x[|pat|..], sep, y, pat);
    } else {
      assert s[1..] == x[1..] + ([sep] + y);
      DeleteAllSplit(x[1..], sep, y, pat);
      if |x| >= |pat| {
        assert x[..|pat|] == s[..|pat|];
      } else {
        assert DeleteAll(x, pat) == x && DeleteAll(x[1..], pat) == x[1..];
        assert [x[0]] + x[1..] == x;
      }
    }
  }

  /** Deleting a pattern whose first character occurs nowhere else in it from
      `c + pat` removes exactly the trailing copy, when `c` does not contain it. */
  lemma {:induction false} DeleteAllSuffix(c: string, pat: string)
    requires pat != [] && pat[0] !in pat[1..]
    requires !Contains(c, pat)
    ensures DeleteAll(c + pat, pat) == c
  {
    var s := c + pat;
    if c == [] {
      assert s == pat && s[|pat|..] == [];
    } else {
      if |c| < |pat| {
        assert s[|c|] == pat[0];
        assert pat[1..][|c| - 1] == pat[|c|];
      }
      assert s[1..] == c[1..] + pat;
      DeleteAllSuffix(c[1..], pat);
      assert [c[0]] + c[1..] == c;
    }
  }

  /** A string that contains `pat` loses at least one copy of it. */
  lemma {:induction false} DeleteAllShrinks(s: string, pat: string)
    requires pat != [] && Contains(s, pat)
    ensures |DeleteAll(s, pat)| <= |s| - |pat|
  {
    if s[..|pat|] != pat {
      DeleteAllShrinks(s[1..], pat);
    }
  }

  /** Appending `pat` never leaves more behind than the deletion did without it. */
  lemma {:induction false} DeleteAllAppend(c: string, pat: string)
    requires pat != []
    ensures |DeleteAll(c + pat, pat)| <= |DeleteAll(c, pat)|
  {
    var s := c + pat;
    if |c| < |pat| {
      if s[..|pat|] != pat {
        assert c != [];
        assert s[1..] == c[1..] + pat;
        DeleteAllAppend(c[1..], pat);
      }
    } else {
      assert s[..|pat|] == c[..|pat|];
      if c[..|pat|] == pat {
        assert s[|pat|..] == c[|pat|..] + pat;
        DeleteAllAppend(c[|pat|..], pat);
      } else {
        assert s[1..] == c[1..] + pat;
        DeleteAllAppend(c[1..], pat);
      }
    }
  }

  /** Python's `str.lower` on ASCII letters; other characters are kept. */
  function LowerChar(c: char): char {
    if 'A' <= c <= 'Z' then (c as int + 32) as char else c
  }

  function Lower(s: string): (r: string)
    ensures |r| == |s|
  {
    seq(|s|, i requires 0 <= i < |s| => LowerChar(s[i]))
  }

  /** `s.endswith(suffix)`. */
  predicate EndsWith(s: string, suffix: string) {
    |s| >= |suffix| && s[|s| - |suffix|..] == suffix
  }
}
