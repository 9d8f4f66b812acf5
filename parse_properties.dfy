/**
  What `parse_filename` computes, stated without the search: the components
  of the match of `^(.+?)_(\d{6})_([^_]+)_(.+)$` with the shortest prefix,
  and none exactly when no way of matching exists. Then the round trip: a
  generated name parses back to the fields it was built from, as long as the
  user field has no underscore and neither free field contains an extension.
 */
module ParseProperties {
  import opened Wrappers
  import opened Text
  import opened StrategyBase
  import opened StandardNaming

  /** What follows the prefix: `_date_user_tail`. */
  function Fields(date: string, user: string, tail: string): string {
    "_" + (date + ("_" + (user + ("_" + tail))))
  }

  /** The four groups joined back together with underscores. */
  function Joined(c: FilenameComponents): string {
    c.prefix + Fields(c.dateStr, c.user, c.content)
  }

  /** The groups after the prefix are well formed: six digits, a non-empty
      user without underscore, a non-empty content without newline (`.` does
      not match one). */
  predicate GroupsMatch(date: string, user: string, content: string) {
    |date| == 6 && AllDigits(date)
    && user != [] && '_' !in user
    && content != [] && '\n' !in content
  }

  /** `c` is a way of matching the pattern against `s`: a non-empty prefix
      without newline, well-formed groups, and `s` is the groups joined,
      possibly followed by one newline (where `$` also matches). */
  predicate IsSplit(s: string, c: FilenameComponents) {
    c.prefix != [] && '\n' !in c.prefix && c.extension == "jpg"
    && GroupsMatch(c.dateStr, c.user, c.content)
    && (s == Joined(c) || s == c.prefix + Fields(c.dateStr, c.user, c.content + "\n"))
  }

  // ---------------------------------------------------------------------------
  // One prefix length

  lemma {:induction false} UserRunExact(u: string, rest: string)
    requires '_' !in u
    ensures UserRun(u + ("_" + rest)) == u
  {
    if u != [] {
      assert (u + ("_" + rest))[1..] == u[1..] + ("_" + rest);
      UserRunExact(u[1..], rest);
      assert [u[0]] + u[1..] == u;
    }
  }

  lemma ContentMatchOf(content: string)
    requires content != [] && '\n' !in content
    ensures ContentMatch(content) == Some(content)
    ensures ContentMatch(content + "\n") == Some(content)
  {
    var t := content + "\n";
    assert t[|t| - 1] == '\n' && t[..|t| - 1] == content;
  }

  /** Well-formed groups are found in what follows the prefix. */
  lemma MatchRestOf(date: string, user: string, tail: string)
    requires |date| == 6 && AllDigits(date) && user != [] && '_' !in user
    ensures MatchRest(Fields(date, user, tail))
         == match ContentMatch(tail)
            case None => None
            case Some(content) => Some((date, user, content))
  {
    var r := Fields(date, user, tail);
    var afterPrefix := r[1..];
    assert afterPrefix == date + ("_" + (user + ("_" + tail)));
    assert afterPrefix[..6] == date;
    assert afterPrefix[6..] == "_" + (user + ("_" + tail));
    assert afterPrefix[6..][1..] == user + ("_" + tail);
    var afterDate := afterPrefix[7..];
    assert afterDate == user + ("_" + tail);
    UserRunExact(user, tail);
    assert afterDate[|user|..] == "_" + tail;
  }

  /** What is found after the prefix is well formed and makes up all of it,
      but for a final newline. */
  lemma MatchRestSound(r: string)
    requires MatchRest(r).Some?
    ensures var (date, user, content) := MatchRest(r).value;
      GroupsMatch(date, user, content)
      && (r == Fields(date, user, content) || r == Fields(date, user, content + "\n"))
  {
    var (date, user, content) := MatchRest(r).value;
    var afterPrefix := r[1..];
    var afterDate := afterPrefix[7..];
    var afterUser := afterDate[|user|..];
    var tail := afterUser[1..];
    assert date == afterPrefix[..6] && user == UserRun(afterDate) && ContentMatch(tail) == Some(content);
    Uncons(afterUser);
    assert afterUser == "_" + tail;
    SplitAt(afterDate, |user|);
    assert afterDate == user + ("_" + tail);
    Uncons(afterPrefix[6..]);
    assert afterPrefix[6..][1..] == afterDate;
    SplitAt(afterPrefix, 6);
    assert afterPrefix == date + ("_" + (user + ("_" + tail)));
    Uncons(r);
    assert r == Fields(date, user, tail);
    if tail != [] && '\n' !in tail {
      assert tail == content;
    } else {
      Unsnoc(tail);
    }
  }

  /** Every way of matching is found at its own prefix length. */
  lemma MatchAtComplete(s: string, c: FilenameComponents)
    requires IsSplit(s, c)
    ensures 1 <= |c.prefix| <= |s| && MatchAt(s, |c.prefix|) == Some(c)
  {
    var k := |c.prefix|;
    var tail := if s == Joined(c) then c.content else c.content + "\n";
    assert s == c.prefix + Fields(c.dateStr, c.user, tail);
    assert s[..k] == c.prefix && s[k..] == Fields(c.dateStr, c.user, tail);
    MatchRestOf(c.dateStr, c.user, tail);
    ContentMatchOf(c.content);
  }

  /** Whatever is found at one prefix length is a way of matching, provided
      the prefix has no newline. */
  lemma MatchAtSound(s: string, k: nat)
    requires 1 <= k <= |s| && '\n' !in s[..k] && MatchAt(s, k).Some?
    ensures IsSplit(s, MatchAt(s, k).value) && |MatchAt(s, k).value.prefix| == k
  {
    var (date, user, content) := MatchRest(s[k..]).value;
    MatchRestSound(s[k..]);
    SplitAt(s, k);
    assert MatchAt(s, k).value == FilenameComponents(s[..k], date, user, content, "jpg");
  }

  /** Two ways of matching with the same prefix length are the same. */
  lemma SplitUnique(s: string, c: FilenameComponents, d: FilenameComponents)
    requires IsSplit(s, c) && IsSplit(s, d) && |c.prefix| == |d.prefix|
    ensures c == d
  {
    MatchAtComplete(s, c);
    MatchAtComplete(s, d);
  }

  // ---------------------------------------------------------------------------
  // The lazy search

  lemma {:induction false} SearchSound(s: string, k: nat)
    requires 1 <= k <= |s| + 1 && '\n' !in s[..k - 1] && Search(s, k).Some?
    ensures IsSplit(s, Search(s, k).value) && k <= |Search(s, k).value.prefix|
    ensures forall d :: IsSplit(s, d) && k <= |d.prefix| ==> |Search(s, k).value.prefix| <= |d.prefix|
    decreases |s| + 1 - k
  {
    NoNewlineExtend(s, k);
    if MatchAt(s, k).Some? {
      MatchAtSound(s, k);
    } else {
      SearchSound(s, k + 1);
      MissSkips(s, k);
    }
  }

  /** A prefix without newline grows by one character that is not one. */
  lemma NoNewlineExtend(s: string, k: nat)
    requires 1 <= k <= |s| && '\n' !in s[..k - 1] && s[k - 1] != '\n'
    ensures '\n' !in s[..k]
  {
    assert s[..k] == s[..k - 1] + [s[k - 1]];
  }

  /** When nothing matches at prefix length `k`, every way of matching with
      a prefix at least that long has a longer one. */
  lemma MissSkips(s: string, k: nat)
    requires 1 <= k <= |s| && MatchAt(s, k).None?
    ensures forall d :: IsSplit(s, d) && k <= |d.prefix| ==> k + 1 <= |d.prefix|
  {
    forall d | IsSplit(s, d) && k <= |d.prefix|
      ensures k + 1 <= |d.prefix|
    {
      MatchAtComplete(s, d);
    }
  }

  lemma {:induction false} SearchComplete(s: string, k: nat, d: FilenameComponents)
    requires 1 <= k <= |s| + 1 && '\n' !in s[..k - 1] && IsSplit(s, d) && k <= |d.prefix|
    ensures Search(s, k).Some?
    decreases |s| + 1 - k
  {
    assert s[..|d.prefix|] == d.prefix;
    assert s[k - 1] == d.prefix[k - 1];
    assert s[..k] == s[..k - 1] + [s[k - 1]];
    MatchAtComplete(s, d);
    if MatchAt(s, k).None? {
      SearchComplete(s, k + 1, d);
    }
  }

  // ---------------------------------------------------------------------------
  // parse_filename

  /** `parse_filename` finds a way of matching the stem exactly when one
      exists, and then the one with the shortest prefix. */
  lemma ParseFilenameSound(name: string)
    ensures ParseFilename(name).Some? ==> IsSplit(Stem(name), ParseFilename(name).value)
    ensures ParseFilename(name).Some? ==>
      forall d :: IsSplit(Stem(name), d) ==> |ParseFilename(name).value.prefix| <= |d.prefix|
    ensures ParseFilename(name).None? <==> forall d :: !IsSplit(Stem(name), d)
  {
    var s := Stem(name);
    if Search(s, 1).Some? {
      SearchSound(s, 1);
    }
    forall d | IsSplit(s, d) ensures Search(s, 1).Some? {
      SearchComplete(s, 1, d);
    }
  }

  /** The components `parse_filename` returns are characterised without the
      search: a way of matching the stem whose prefix is no longer than that
      of any other. */
  lemma ParseFilenameExact(name: string, c: FilenameComponents)
    ensures ParseFilename(name) == Some(c)
        <==> IsSplit(Stem(name), c) && forall d :: IsSplit(Stem(name), d) ==> |c.prefix| <= |d.prefix|
  {
    ParseFilenameSound(name);
    var s := Stem(name);
    if IsSplit(s, c) && forall d :: IsSplit(s, d) ==> |c.prefix| <= |d.prefix| {
      var r := ParseFilename(name).value;
      SplitUnique(s, c, r);
    }
  }

  // ---------------------------------------------------------------------------
  // Round trip

  /** A pattern one of whose characters is missing from `s` does not occur in it. */
  lemma {:induction false} MissingCharAbsent(s: string, pat: string, i: nat)
    requires i < |pat| && pat[i] !in s
    ensures !Contains(s, pat)
  {
    if |s| >= |pat| {
      assert s[..|pat|][i] == s[i];
      MissingCharAbsent(s[1..], pat, i);
    }
  }

  /** Deleting a pattern without an underscore works field by field. */
  lemma DeleteAllFields(p: string, d: string, u: string, c: string, pat: string)
    requires pat != [] && '_' !in pat
    ensures DeleteAll(p + Fields(d, u, c), pat)
         == DeleteAll(p, pat) + Fields(DeleteAll(d, pat), DeleteAll(u, pat), DeleteAll(c, pat))
  {
    DeleteAllSplit(p, '_', d + ("_" + (u + ("_" + c))), pat);
    DeleteAllSplit(d, '_', u + ("_" + c), pat);
    DeleteAllSplit(u, '_', c, pat);
  }

  /** The conditions under which a generated name parses back: the sanitised
      user has no underscore and neither free field contains `.jpg` or `.JPG`. */
  predicate Parsable(user: string, content: string) {
    var u := Sanitize(user);
    var c := ContentField(content);
    '_' !in u && !Contains(u, ".jpg") && !Contains(u, ".JPG")
    && !Contains(c, ".jpg") && !Contains(c, ".JPG")
  }

  /** The fields a generated name is built from. */
  function Generated(user: string, content: string, t: Timestamp): FilenameComponents {
    FilenameComponents(Prefix, DateCode(t), Sanitize(user), ContentField(content), "jpg")
  }

  /** A generated name is its prefix followed by the other fields, the
      extension trailing the content. */
  lemma GeneratedShape(user: string, content: string, t: Timestamp)
    ensures var g := Generated(user, content, t);
      GenerateFilename(user, content, t) == g.prefix + Fields(g.dateStr, g.user, g.content + ".jpg")
  {
    var g := Generated(user, content, t);
    var x2 := Prefix + "_";
    var x3 := x2 + g.dateStr;
    var x4 := x3 + "_";
    var x5 := x4 + g.user;
    var x6 := x5 + "_";
    Assoc(x6, g.content, ".jpg");
    Assoc(x5, "_", g.content + ".jpg");
    Assoc(x4, g.user, "_" + (g.content + ".jpg"));
    Assoc(x3, "_", g.user + ("_" + (g.content + ".jpg")));
    Assoc(x2, g.dateStr, "_" + (g.user + ("_" + (g.content + ".jpg"))));
    Assoc(Prefix, "_", g.dateStr + ("_" + (g.user + ("_" + (g.content + ".jpg")))));
  }

  /** Deleting the extensions from a name built from fields that hold none
      leaves the fields joined by underscores. */
  lemma StemFields(p: string, d: string, u: string, c: string)
    requires 'j' !in p && 'J' !in p && '.' !in d
    requires !Contains(u, ".jpg") && !Contains(u, ".JPG") && !Contains(c, ".jpg") && !Contains(c, ".JPG")
    ensures Stem(p + Fields(d, u, c + ".jpg")) == p + Fields(d, u, c)
  {
    DeleteAllFields(p, d, u, c + ".jpg", ".jpg");
    MissingCharAbsent(p, ".jpg", 1);
    MissingCharAbsent(d, ".jpg", 0);
    DeleteAllAbsent(p, ".jpg");
    DeleteAllAbsent(d, ".jpg");
    DeleteAllAbsent(u, ".jpg");
    DeleteAllSuffix(c, ".jpg");
    DeleteAllFields(p, d, u, c, ".JPG");
    MissingCharAbsent(p, ".JPG", 1);
    MissingCharAbsent(d, ".JPG", 0);
    DeleteAllAbsent(p, ".JPG");
    DeleteAllAbsent(d, ".JPG");
    DeleteAllAbsent(u, ".JPG");
    DeleteAllAbsent(c, ".JPG");
  }

  /** A way of matching a text that starts with an underscore-free `p` has a
      prefix group at least as long as `p`. */
  lemma PrefixAtLeast(s: string, d: FilenameComponents, p: string)
    requires IsSplit(s, d) && |p| <= |s| && s[..|p|] == p && '_' !in p
    ensures |d.prefix| >= |p|
  {
    assert s[|d.prefix|] == '_';
    forall i | 0 <= i < |p| ensures s[i] != '_' {
      assert s[i] == p[i];
    }
  }

  /** A name built from well-formed fields, the prefix free of underscores and
      no field holding an extension, parses back to those fields. */
  lemma ParseFields(p: string, d: string, u: string, c: string)
    requires p != [] && '\n' !in p && '_' !in p && 'j' !in p && 'J' !in p
    requires GroupsMatch(d, u, c) && '.' !in d
    requires !Contains(u, ".jpg") && !Contains(u, ".JPG") && !Contains(c, ".jpg") && !Contains(c, ".JPG")
    ensures ParseFilename(p + Fields(d, u, c + ".jpg")) == Some(FilenameComponents(p, d, u, c, "jpg"))
  {
    var name := p + Fields(d, u, c + ".jpg");
    var g := FilenameComponents(p, d, u, c, "jpg");
    var s := Stem(name);
    StemFields(p, d, u, c);
    assert IsSplit(s, g);
    ParseFilenameSound(name);
    var r := ParseFilename(name).value;
    PrefixAtLeast(s, r, p);
    SplitUnique(s, g, r);
  }

  /** The extension is deleted wherever it occurs: a `.jpg` at the end of the
      user field goes as well as the trailing one. */
  lemma StemInnerExtension(p: string, d: string, u: string, c: string)
    requires 'j' !in p && 'J' !in p && '.' !in d
    requires !Contains(u, ".jpg") && !Contains(u, ".JPG") && !Contains(c, ".jpg") && !Contains(c, ".JPG")
    ensures Stem(p + Fields(d, u + ".jpg", c + ".jpg")) == p + Fields(d, u, c)
  {
    DeleteAllFields(p, d, u + ".jpg", c + ".jpg", ".jpg");
    MissingCharAbsent(p, ".jpg", 1);
    MissingCharAbsent(d, ".jpg", 0);
    DeleteAllAbsent(p, ".jpg");
    DeleteAllAbsent(d, ".jpg");
    DeleteAllSuffix(u, ".jpg");
    DeleteAllSuffix(c, ".jpg");
    DeleteAllFields(p, d, u, c, ".JPG");
    MissingCharAbsent(p, ".JPG", 1);
    MissingCharAbsent(d, ".JPG", 0);
    DeleteAllAbsent(p, ".JPG");
    DeleteAllAbsent(d, ".JPG");
    DeleteAllAbsent(u, ".JPG");
    DeleteAllAbsent(c, ".JPG");
  }

  /** A name whose user field carries an extension parses as if it had none. */
  lemma ParseInnerExtension(p: string, d: string, u: string, c: string)
    requires p != [] && '\n' !in p && '_' !in p && 'j' !in p && 'J' !in p
    requires GroupsMatch(d, u, c) && '.' !in d
    requires !Contains(u, ".jpg") && !Contains(u, ".JPG") && !Contains(c, ".jpg") && !Contains(c, ".JPG")
    ensures ParseFilename(p + Fields(d, u + ".jpg", c + ".jpg")) == Some(FilenameComponents(p, d, u, c, "jpg"))
  {
    StemInnerExtension(p, d, u, c);
    StemFields(p, d, u, c);
    ParseFields(p, d, u, c);
  }

  /** `p_123456_u.jpg_c.jpg` parses with user `u`: the inner `.jpg` is deleted too. */
  lemma ParseInnerExtensionExample()
    ensures ParseFilename("p_123456_u.jpg_c.jpg") == Some(FilenameComponents("p", "123456", "u", "c", "jpg"))
  {
    ExampleFieldsShort();
    ParseInnerExtension("p", "123456", "u", "c");
    ExampleSpelled();
  }

  lemma ExampleFieldsShort()
    ensures AllDigits("123456")
    ensures !Contains("u", ".jpg") && !Contains("u", ".JPG") && !Contains("c", ".jpg") && !Contains("c", ".JPG")
  {
  }

  lemma ExampleSpelled()
    ensures "p" + Fields("123456", "u" + ".jpg", "c" + ".jpg") == "p_123456_u.jpg_c.jpg"
  {
  }

  /** `parse_filename(generate_filename(user, content, t))` gives back the
      prefix, the date code, the sanitised user and the content field. */
  lemma ParseGenerated(user: string, content: string, t: Timestamp)
    requires Parsable(user, content)
    ensures ParseFilename(GenerateFilename(user, content, t)) == Some(Generated(user, content, t))
  {
    var g := Generated(user, content, t);
    GeneratedShape(user, content, t);
    PrefixChars();
    assert IsForbidden('\n');
    assert '\n' !in g.content;
    assert '.' !in g.dateStr;
    ParseFields(g.prefix, g.dateStr, g.user, g.content);
  }

  /** Deleting both extensions from a field holding one shortens it. */
  lemma ExtensionsShrink(x: string)
    ensures |Stem(x)| <= |x|
    ensures Contains(x, ".jpg") || Contains(x, ".JPG") ==> |Stem(x)| < |x|
  {
    if Contains(x, ".jpg") {
      DeleteAllShrinks(x, ".jpg");
    } else {
      DeleteAllAbsent(x, ".jpg");
      if Contains(x, ".JPG") {
        DeleteAllShrinks(x, ".JPG");
      }
    }
  }

  /** Deleting both extensions from a field followed by `.jpg` leaves at most
      the field, and less when the field holds an extension itself. */
  lemma ExtensionsShrinkTail(c: string)
    ensures |Stem(c + ".jpg")| <= |c|
    ensures Contains(c, ".jpg") || Contains(c, ".JPG") ==> |Stem(c + ".jpg")| < |c|
  {
    DeleteAllAppend(c, ".jpg");
    if Contains(c, ".jpg") {
      DeleteAllShrinks(c, ".jpg");
    } else {
      assert ".jpg"[0] !in ".jpg"[1..];
      DeleteAllSuffix(c, ".jpg");
      if Contains(c, ".JPG") {
        DeleteAllShrinks(c, ".JPG");
      }
    }
  }

  /** Deleting the extensions works field by field on a name whose prefix and
      date hold none. */
  lemma StemByField(p: string, d: string, u: string, c: string)
    requires 'j' !in p && 'J' !in p && '.' !in d
    ensures Stem(p + Fields(d, u, c + ".jpg")) == p + Fields(d, Stem(u), Stem(c + ".jpg"))
  {
    DeleteAllFields(p, d, u, c + ".jpg", ".jpg");
    MissingCharAbsent(p, ".jpg", 1);
    MissingCharAbsent(d, ".jpg", 0);
    DeleteAllAbsent(p, ".jpg");
    DeleteAllAbsent(d, ".jpg");
    DeleteAllFields(p, d, DeleteAll(u, ".jpg"), DeleteAll(c + ".jpg", ".jpg"), ".JPG");
    MissingCharAbsent(p, ".JPG", 1);
    MissingCharAbsent(d, ".JPG", 0);
    DeleteAllAbsent(p, ".JPG");
    DeleteAllAbsent(d, ".JPG");
  }

  /** Deleting the extensions from a name built from fields leaves it no
      shorter than the fields joined only when no field holds an extension. */
  lemma StemKeepsFields(p: string, d: string, u: string, c: string)
    requires 'j' !in p && 'J' !in p && '.' !in d
    requires |Stem(p + Fields(d, u, c + ".jpg"))| >= |p + Fields(d, u, c)|
    ensures !Contains(u, ".jpg") && !Contains(u, ".JPG") && !Contains(c, ".jpg") && !Contains(c, ".JPG")
  {
    StemByField(p, d, u, c);
    ExtensionsShrink(u);
    ExtensionsShrinkTail(c);
  }

  /** A generated name parses back to its own fields exactly under the
      conditions of `Parsable`: an underscore in the sanitised user, or an
      extension in the user or content field, changes what is parsed. */
  lemma ParseGeneratedIff(user: string, content: string, t: Timestamp)
    ensures ParseFilename(GenerateFilename(user, content, t)) == Some(Generated(user, content, t))
        <==> Parsable(user, content)
  {
    var name := GenerateFilename(user, content, t);
    var g := Generated(user, content, t);
    if Parsable(user, content) {
      ParseGenerated(user, content, t);
    } else if ParseFilename(name) == Some(g) {
      ParseFilenameSound(name);
      assert IsSplit(Stem(name), g);
      GeneratedShape(user, content, t);
      PrefixChars();
      assert '.' !in g.dateStr;
      assert |Stem(name)| >= |g.prefix + Fields(g.dateStr, g.user, g.content)|;
      StemKeepsFields(g.prefix, g.dateStr, g.user, g.content);
      assert false;
    }
  }
}
