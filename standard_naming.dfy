/**
  The standard photo naming scheme: `03.물품사진_YYMMDD_USER_CONTENT.jpg`
  inside a folder named `YY년 MM월`.

  `Sanitize` cleans free text for use in a file name, `GenerateFilename` and
  `GenerateFolderName` build names from a user, a recognised text and a
  timestamp, `ValidateFilename` checks a name, and `ParseFilename` recovers
  the components from a name. All of them are total.
 */
module StandardNaming {
  import opened Wrappers
  import opened Text
  import opened StrategyBase

  /** The tag every photo name starts with. */
  const Prefix: string := "03.물품사진"
  /** Longest content field kept in a generated name. */
  const MaxContentLength: nat := 50
  /** Longest name `ValidateFilename` accepts. */
  const MaxFilenameLength: nat := 255
  /** What an empty cleaned text is replaced with. */
  const Fallback: string := "Unknown"

  type Year = y: int | 1 <= y <= 9999 witness 1
  type Month = m: int | 1 <= m <= 12 witness 1
  type Day = d: int | 1 <= d <= 31 witness 1

  /** The calendar date of a timestamp; the time of day plays no part in any name. */
  datatype Timestamp = Timestamp(year: Year, month: Month, day: Day)

  // ---------------------------------------------------------------------------
  // sanitize_text

  /** Only plain spaces as whitespace, and never two in a row. */
  ghost predicate SingleSpaced(t: string) {
    t == [] || ((IsSpace(t[0]) ==> t[0] == ' ' && (|t| == 1 || !IsSpace(t[1]))) && SingleSpaced(t[1..]))
  }

  lemma {:induction false} SingleSpacedPrefix(t: string, n: nat)
    requires n <= |t| && SingleSpaced(t)
    ensures SingleSpaced(t[..n])
  {
    if n > 0 {
      assert t[..n][1..] == t[1..][..n - 1];
      SingleSpacedPrefix(t[1..], n - 1);
    }
  }

  lemma {:induction false} SingleSpacedSuffix(t: string, k: nat)
    requires k <= |t| && SingleSpaced(t)
    ensures SingleSpaced(t[k..])
  {
    if k > 0 {
      assert t[k..] == t[1..][k - 1..];
      SingleSpacedSuffix(t[1..], k - 1);
    }
  }

  /** What sanitising guarantees: no forbidden character, whitespace only as
      single spaces, none at either end. */
  ghost predicate Clean(t: string) {
    NoForbidden(t) && SingleSpaced(t) && (t != [] ==> !IsSpace(t[0]) && !IsSpace(t[|t| - 1]))
  }

  /** The characters that are neither forbidden nor whitespace, in order: the
      part of a text that sanitising keeps verbatim. */
  function Visible(s: string): string {
    if s == [] then []
    else (if IsForbidden(s[0]) || IsSpace(s[0]) then [] else [s[0]]) + Visible(s[1..])
  }

  /** `re.sub(r'[<>:"/\\|?*\x00-\x1f]', '', s)`. */
  function RemoveForbidden(s: string): (r: string)
    ensures |r| <= |s| && NoForbidden(r)
    ensures forall c :: c in r <==> c in s && !IsForbidden(c)
  {
    if s == [] then []
    else (if IsForbidden(s[0]) then [] else [s[0]]) + RemoveForbidden(s[1..])
  }

  /** `re.sub(r'\s+', ' ', s)`: every run of whitespace becomes one space. */
  function Collapse(s: string): string
    decreases |s|
  {
    if s == [] then []
    else if IsSpace(s[0]) then [' '] + Collapse(s[SpaceRun(s)..])
    else [s[0]] + Collapse(s[1..])
  }

  /** The collapsed text is single-spaced, empty only for an empty input,
      starts with whitespace exactly when the input does, and holds no
      forbidden character the input does not. */
  lemma {:induction false} CollapseFacts(s: string)
    decreases |s|
    ensures SingleSpaced(Collapse(s))
    ensures Collapse(s) == [] <==> s == []
    ensures Collapse(s) != [] ==> (IsSpace(Collapse(s)[0]) <==> IsSpace(s[0]))
    ensures NoForbidden(s) ==> NoForbidden(Collapse(s))
  {
    if s != [] {
      if IsSpace(s[0]) {
        var k := SpaceRun(s);
        SpaceRunFacts(s);
        var rest := s[k..];
        CollapseFacts(rest);
        if NoForbidden(s) {
          NoForbiddenSlice(s, k, |s|);
        }
        var r := [' '] + Collapse(rest);
        assert Collapse(s) == r;
        assert r[1..] == Collapse(rest);
      } else {
        CollapseFacts(s[1..]);
        var r := [s[0]] + Collapse(s[1..]);
        assert Collapse(s) == r;
        assert r[1..] == Collapse(s[1..]);
        assert NoForbidden(s) ==> s[0] in s;
      }
    }
  }

  /** `sanitize_text`: never empty, always clean. */
  function Sanitize(s: string): (r: string)
    ensures r != [] && Clean(r)
  {
    FallbackClean();
    if s == [] then Fallback
    else
      var collapsed := Collapse(RemoveForbidden(s));
      CollapseFacts(RemoveForbidden(s));
      var t := Strip(collapsed);
      StripCleans(collapsed);
      if t == [] then Fallback else t
  }

  /** A text without whitespace is single-spaced. */
  lemma {:induction false} NoSpaceSingleSpaced(t: string)
    requires forall c | c in t :: !IsSpace(c)
    ensures SingleSpaced(t)
  {
    if t != [] {
      assert t[0] in t;
      NoSpaceSingleSpaced(t[1..]);
    }
  }

  lemma FallbackClean()
    ensures Clean(Fallback)
  {
    forall c | c in Fallback ensures !IsSpace(c) {
      NotSpace(c);
    }
    NoSpaceSingleSpaced(Fallback);
    assert Fallback[0] in Fallback && Fallback[6] in Fallback;
  }

  /** Stripping a single-spaced text free of forbidden characters makes it clean. */
  lemma StripCleans(c: string)
    requires NoForbidden(c) && SingleSpaced(c)
    ensures Clean(Strip(c))
  {
    var k := StripSlice(c);
    TrimmedSliceClean(c, Strip(c), k, k + |Strip(c)|);
  }

  /** A slice of a single-spaced text free of forbidden characters is clean
      once it has no whitespace at either end. */
  lemma TrimmedSliceClean(c: string, t: string, i: nat, j: nat)
    requires NoForbidden(c) && SingleSpaced(c)
    requires i <= j <= |c| && t == c[i..j]
    requires t != [] ==> !IsSpace(t[0]) && !IsSpace(t[|t| - 1])
    ensures Clean(t)
  {
    SingleSpacedSlice(c, i, j);
    NoForbiddenSlice(c, i, j);
  }

  lemma SingleSpacedSlice(c: string, i: nat, j: nat)
    requires i <= j <= |c| && SingleSpaced(c)
    ensures SingleSpaced(c[i..j])
  {
    SingleSpacedSuffix(c, i);
    SingleSpacedPrefix(c[i..], j - i);
    assert c[i..][..j - i] == c[i..j];
  }

  // ---------------------------------------------------------------------------
  // generate_filename, generate_folder_name

  function DigitChar(n: int): char
    requires 0 <= n < 10
  {
    ('0' as int + n) as char
  }

  function DigitValue(c: char): int {
    c as int - '0' as int
  }

  function TwoDigitValue(s: string): int
    requires |s| == 2
  {
    10 * DigitValue(s[0]) + DigitValue(s[1])
  }

  /** A zero-padded two-digit field (`%y`, `%m`, `%d`); reading it back gives `n`. */
  function TwoDigits(n: int): (r: string)
    requires 0 <= n < 100
    ensures |r| == 2 && AllDigits(r) && TwoDigitValue(r) == n
  {
    [DigitChar(n / 10), DigitChar(n % 10)]
  }

  /** `strftime("%y%m%d")`: six digits that read back as the year within its
      century, the month and the day. */
  function DateCode(t: Timestamp): (r: string)
    ensures |r| == 6 && AllDigits(r)
    ensures TwoDigitValue(r[..2]) == t.year % 100
    ensures TwoDigitValue(r[2..4]) == t.month
    ensures TwoDigitValue(r[4..]) == t.day
  {
    var r := TwoDigits(t.year % 100) + TwoDigits(t.month) + TwoDigits(t.day);
    assert r[..2] == TwoDigits(t.year % 100) && r[2..4] == TwoDigits(t.month) && r[4..] == TwoDigits(t.day);
    r
  }

  /** The content field: the sanitised text cut to its first 50 characters,
      the cut coming after sanitising. */
  function ContentField(content: string): (r: string)
    ensures var c := Sanitize(content);
      |r| == (if |c| <= MaxContentLength then |c| else MaxContentLength) && r == c[..|r|]
    ensures r != [] && NoForbidden(r) && SingleSpaced(r) && !IsSpace(r[0])
  {
    var c := Sanitize(content);
    if |c| > MaxContentLength then
      PrefixKeepsSpacing(c, MaxContentLength);
      assert c[..MaxContentLength][0] == c[0];
      c[..MaxContentLength]
    else c
  }

  lemma PrefixKeepsSpacing(c: string, n: nat)
    requires n <= |c| && NoForbidden(c) && SingleSpaced(c)
    ensures NoForbidden(c[..n]) && SingleSpaced(c[..n])
  {
    SingleSpacedPrefix(c, n);
  }

  /** The prefix is free of newlines, underscores and the letters of `jpg`. */
  lemma PrefixChars()
    ensures Prefix != [] && '\n' !in Prefix && '_' !in Prefix && 'j' !in Prefix && 'J' !in Prefix
  {
  }

  /** The fixed pieces of a generated name hold no forbidden character. */
  lemma FixedPartsAllowed(t: Timestamp)
    ensures NoForbidden(Prefix) && NoForbidden("_") && NoForbidden(".jpg") && NoForbidden(DateCode(t))
  {
    var d := DateCode(t);
    forall c | c in d ensures !IsForbidden(c) {
      var i :| 0 <= i < |d| && d[i] == c;
      assert IsDigit(d[i]);
    }
  }

  /** `generate_filename(user, content, timestamp)`: the prefix, the date code,
      the sanitised user and the content field joined by underscores, then
      `.jpg`. The name has no forbidden character and is 20 characters longer
      than its user and content fields together. */
  function GenerateFilename(user: string, content: string, t: Timestamp): (r: string)
    ensures |r| == 20 + |Sanitize(user)| + |ContentField(content)|
    ensures NoForbidden(r)
    ensures EndsWith(r, ".jpg")
  {
    FixedPartsAllowed(t);
    Prefix + "_" + DateCode(t) + "_" + Sanitize(user) + "_" + ContentField(content) + ".jpg"
  }

  /** `generate_folder_name(timestamp)`, `strftime("%y년 %m월")`: seven
      characters that read back as the year within its century and the month. */
  function GenerateFolderName(t: Timestamp): (r: string)
    ensures |r| == 7 && NoForbidden(r)
    ensures AllDigits(r[..2]) && TwoDigitValue(r[..2]) == t.year % 100
    ensures r[2..4] == "년 " && r[6] == '월'
    ensures AllDigits(r[4..6]) && TwoDigitValue(r[4..6]) == t.month
  {
    var r := TwoDigits(t.year % 100) + "년 " + TwoDigits(t.month) + "월";
    assert r[..2] == TwoDigits(t.year % 100) && r[4..6] == TwoDigits(t.month);
    r
  }

  // ---------------------------------------------------------------------------
  // validate_filename

  /** `validate_filename(name)`: non-empty, at most 255 characters, no forbidden
      character, and `.jpg` at the end in any letter case. */
  function ValidateFilename(name: string): (ok: bool)
    ensures ok <==> (0 < |name| <= MaxFilenameLength && NoForbidden(name)
                     && |name| >= 4 && name[|name| - 4] == '.' && LowerChar(name[|name| - 3]) == 'j'
                     && LowerChar(name[|name| - 2]) == 'p' && LowerChar(name[|name| - 1]) == 'g')
  {
    var l := Lower(name);
    assert |name| >= 4 ==> l[|l| - 4..] == [l[|l| - 4], l[|l| - 3], l[|l| - 2], l[|l| - 1]];
    if name == [] then false
    else if |name| > MaxFilenameLength then false
    else if !NoForbidden(name) then false
    else if !EndsWith(Lower(name), ".jpg") then false
    else true
  }

  // ---------------------------------------------------------------------------
  // parse_filename

  /** The name with every `.jpg`, then every `.JPG`, deleted wherever it occurs. */
  function Stem(name: string): string {
    DeleteAll(DeleteAll(name, ".jpg"), ".JPG")
  }

  /** `([^_]+)` taken greedily: the longest underscore-free prefix. */
  function UserRun(s: string): (r: string)
    ensures |r| <= |s| && r == s[..|r|] && '_' !in r
    ensures |r| == |s| || s[|r|] == '_'
  {
    if s == [] || s[0] == '_' then [] else [s[0]] + UserRun(s[1..])
  }

  /** `(.+)$` on the rest of the name: a non-empty run without newline reaching
      the end, or the character before a final newline. */
  function ContentMatch(rest: string): Option<string> {
    if rest != [] && '\n' !in rest then Some(rest)
    else if |rest| >= 2 && rest[|rest| - 1] == '\n' && '\n' !in rest[..|rest| - 1] then Some(rest[..|rest| - 1])
    else None
  }

  /** The rest of the pattern, `_(\d{6})_([^_]+)_(.+)$`, against what follows
      the prefix: the date, the user and the content groups. */
  function MatchRest(r: string): Option<(string, string, string)> {
    if r == [] || r[0] != '_' then None
    else
      var afterPrefix := r[1..];
      if |afterPrefix| < 7 || !AllDigits(afterPrefix[..6]) || afterPrefix[6] != '_' then None
      else
        var afterDate := afterPrefix[7..];
        var user := UserRun(afterDate);
        var afterUser := afterDate[|user|..];
        if user == [] || afterUser == [] then None
        else match ContentMatch(afterUser[1..])
          case None => None
          case Some(content) => Some((afterPrefix[..6], user, content))
  }

  /** The whole pattern with the prefix group fixed to the first `k` characters. */
  function MatchAt(s: string, k: nat): Option<FilenameComponents>
    requires 1 <= k <= |s|
  {
    match MatchRest(s[k..])
    case None => None
    case Some(groups) => Some(FilenameComponents(s[..k], groups.0, groups.1, groups.2, "jpg"))
  }

  /** `(.+?)` tried lazily: prefix lengths `k`, `k + 1`, ... until one matches
      or the prefix would have to take in a newline. */
  function Search(s: string, k: nat): Option<FilenameComponents>
    requires k >= 1
    decreases |s| + 1 - k
  {
    if k > |s| || s[k - 1] == '\n' then None
    else match MatchAt(s, k)
      case Some(c) => Some(c)
      case None => Search(s, k + 1)
  }

  /** `parse_filename(name)`: deletes the extensions, then matches
      `^(.+?)_(\d{6})_([^_]+)_(.+)$`; the extension reported is always `jpg`. */
  function ParseFilename(name: string): Option<FilenameComponents> {
    Search(Stem(name), 1)
  }
}
