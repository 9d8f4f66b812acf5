/**
  What the naming scheme guarantees: sanitising is idempotent and keeps the
  visible characters in order; a generated name validates exactly when it
  fits in 255 characters; parsing finds the split with the shortest prefix;
  and parsing a generated name gives back its fields when the user field has
  no underscore and neither free field contains an extension.
 */
module NamingProperties {
  import opened Text
  import opened StandardNaming

  // ---------------------------------------------------------------------------
  // sanitize_text

  lemma {:induction false} RemoveForbiddenKeepsAllowed(s: string)
    requires NoForbidden(s)
    ensures RemoveForbidden(s) == s
  {
    if s != [] {
      assert s[0] in s;
      RemoveForbiddenKeepsAllowed(s[1..]);
      assert [s[0]] + s[1..] == s;
    }
  }

  lemma {:induction false} CollapseKeepsSingleSpaced(s: string)
    requires SingleSpaced(s)
    ensures Collapse(s) == s
    decreases |s|
  {
    if s != [] {
      if IsSpace(s[0]) {
        assert |s| > 1 ==> !IsSpace(s[1]);
        assert SpaceRun(s[1..]) == 0;
        CollapseKeepsSingleSpaced(s[1..]);
        assert s[0] == ' ';
      } else {
        CollapseKeepsSingleSpaced(s[1..]);
      }
      assert [s[0]] + s[1..] == s;
    }
  }

  /** A clean, non-empty text is a fixed point of sanitising. */
  lemma SanitizeKeepsClean(t: string)
    requires t != [] && Clean(t)
    ensures Sanitize(t) == t
  {
    RemoveForbiddenKeepsAllowed(t);
    CollapseKeepsSingleSpaced(t);
    StripTrimmed(t);
  }

  /** `sanitize_text(sanitize_text(s)) == sanitize_text(s)`. */
  lemma SanitizeIdempotent(s: string)
    ensures Sanitize(Sanitize(s)) == Sanitize(s)
  {
    SanitizeKeepsClean(Sanitize(s));
  }

  lemma {:induction false} VisibleAppend(a: string, b: string)
    ensures Visible(a + b) == Visible(a) + Visible(b)
  {
    if a != [] {
      assert (a + b)[0] == a[0];
      assert (a + b)[1..] == a[1..] + b;
      VisibleAppend(a[1..], b);
    } else {
      assert a + b == b;
    }
  }

  lemma {:induction false} VisibleOfSpaces(s: string)
    requires forall i :: 0 <= i < |s| ==> IsSpace(s[i])
    ensures Visible(s) == []
  {
    if s != [] {
      VisibleOfSpaces(s[1..]);
    }
  }

  /** A text free of forbidden characters with nothing visible is all whitespace. */
  lemma {:induction false} NothingVisibleIsSpaces(s: string)
    requires NoForbidden(s) && Visible(s) == []
    ensures forall i :: 0 <= i < |s| ==> IsSpace(s[i])
  {
    if s != [] {
      assert s[0] in s;
      NothingVisibleIsSpaces(s[1..]);
      forall i | 0 <= i < |s| ensures IsSpace(s[i]) {
        if i > 0 { assert s[i] == s[1..][i - 1]; }
      }
    }
  }

  lemma {:induction false} VisibleRemoveForbidden(s: string)
    ensures Visible(RemoveForbidden(s)) == Visible(s)
  {
    if s != [] {
      var head := if IsForbidden(s[0]) then [] else [s[0]];
      VisibleAppend(head, RemoveForbidden(s[1..]));
      VisibleRemoveForbidden(s[1..]);
    }
  }

  lemma {:induction false} VisibleCollapse(s: string)
    ensures Visible(Collapse(s)) == Visible(s)
    decreases |s|
  {
    if s != [] {
      if IsSpace(s[0]) {
        var k := SpaceRun(s);
        SpaceRunFacts(s);
        var rest := s[k..];
        VisibleAppend([' '], Collapse(rest));
        VisibleCollapse(rest);
        assert s == s[..k] + rest;
        VisibleAppend(s[..k], rest);
        VisibleOfSpaces(s[..k]);
      } else {
        VisibleAppend([s[0]], Collapse(s[1..]));
        VisibleCollapse(s[1..]);
      }
    }
  }

  lemma {:induction false} VisibleStrip(s: string)
    decreases |s|
    ensures Visible(Strip(s)) == Visible(s)
  {
    if s != [] && IsSpace(s[0]) {
      assert Strip(s) == Strip(s[1..]);
      VisibleStrip(s[1..]);
    } else if s != [] && IsSpace(s[|s| - 1]) {
      var init := s[..|s| - 1];
      assert Strip(s) == Strip(init);
      VisibleStrip(init);
      assert s == init + [s[|s| - 1]];
      VisibleAppend(init, [s[|s| - 1]]);
    }
  }

  /** A text that starts with a whitespace run `w` followed by a
      non-whitespace character (or nothing) has a leading run of exactly `|w|`. */
  lemma SpaceRunOf(w: string, b: string)
    requires forall i :: 0 <= i < |w| ==> IsSpace(w[i])
    requires b == [] || !IsSpace(b[0])
    ensures SpaceRun(w + b) == |w|
  {
    SpaceRunFacts(w + b);
    assert forall i :: 0 <= i < |w| ==> (w + b)[i] == w[i];
    assert b != [] ==> (w + b)[|w|] == b[0];
  }

  /** Text appended after a non-whitespace character does not change the
      leading whitespace run, which stops before that character. */
  lemma SpaceRunAppend(a: string, b: string)
    requires a != [] && !IsSpace(a[|a| - 1])
    ensures SpaceRun(a + b) == SpaceRun(a) < |a|
  {
    var k := SpaceRun(a);
    SpaceRunFacts(a);
    assert k < |a|;
    assert forall i :: 0 <= i < |a| ==> (a + b)[i] == a[i];
    SpaceRunOf(a[..k], a[k..] + b);
    assert a[..k] + (a[k..] + b) == a + b;
  }

  /** Collapsing works piece by piece across a cut after a non-whitespace
      character. */
  lemma {:induction false} CollapseAppend(a: string, b: string)
    requires a == [] || !IsSpace(a[|a| - 1])
    ensures Collapse(a + b) == Collapse(a) + Collapse(b)
    decreases |a|
  {
    if a == [] {
      assert a + b == b;
    } else if IsSpace(a[0]) {
      SpaceRunAppend(a, b);
      CollapseAppend(a[SpaceRun(a)..], b);
      CollapseAppendSpace(a, b);
    } else {
      CollapseAppend(a[1..], b);
      CollapseAppendChar(a, b);
    }
  }

  /** The step of `CollapseAppend` when `a` starts with whitespace. */
  lemma CollapseAppendSpace(a: string, b: string)
    requires a != [] && IsSpace(a[0]) && SpaceRun(a + b) == SpaceRun(a) < |a|
    requires Collapse(a[SpaceRun(a)..] + b) == Collapse(a[SpaceRun(a)..]) + Collapse(b)
    ensures Collapse(a + b) == Collapse(a) + Collapse(b)
  {
    var k := SpaceRun(a);
    assert (a + b)[0] == a[0];
    assert (a + b)[k..] == a[k..] + b;
    Assoc([' '], Collapse(a[k..]), Collapse(b));
  }

  /** The step of `CollapseAppend` when `a` starts with another character. */
  lemma CollapseAppendChar(a: string, b: string)
    requires a != [] && !IsSpace(a[0])
    requires Collapse(a[1..] + b) == Collapse(a[1..]) + Collapse(b)
    ensures Collapse(a + b) == Collapse(a) + Collapse(b)
  {
    assert (a + b)[0] == a[0];
    assert (a + b)[1..] == a[1..] + b;
    Assoc([a[0]], Collapse(a[1..]), Collapse(b));
  }

  /** A leading whitespace run followed by a non-whitespace character (or
      nothing) becomes one space. */
  lemma CollapseLeadingRun(w: string, b: string)
    requires w != [] && forall i :: 0 <= i < |w| ==> IsSpace(w[i])
    requires b == [] || !IsSpace(b[0])
    ensures Collapse(w + b) == " " + Collapse(b)
  {
    assert (w + b)[0] == w[0];
    SpaceRunOf(w, b);
    assert (w + b)[|w|..] == b;
  }

  /** `re.sub(r'\s+', ' ', s)` turns a whitespace run between two pieces
      into exactly one space, whatever its length. */
  lemma CollapseRun(a: string, w: string, b: string)
    requires a == [] || !IsSpace(a[|a| - 1])
    requires w != [] && forall i :: 0 <= i < |w| ==> IsSpace(w[i])
    requires b == [] || !IsSpace(b[0])
    ensures Collapse(a + w + b) == Collapse(a) + " " + Collapse(b)
  {
    Assoc(a, w, b);
    CollapseAppend(a, w + b);
    CollapseLeadingRun(w, b);
    Assoc(Collapse(a), " ", Collapse(b));
  }

  lemma CollapseTwoSpaces()
    ensures Collapse("a  b") == "a b"
  {
    NotSpace('a');
    NotSpace('b');
    SpaceAndTab();
    assert "a  b" == "a" + "  " + "b";
    CollapseRun("a", "  ", "b");
  }

  /** Two spaces between two letters become one. */
  lemma SanitizeKeepsOneSpace()
    ensures Sanitize("a  b") == "a b"
  {
    assert NoForbidden("a  b");
    RemoveForbiddenKeepsAllowed("a  b");
    CollapseTwoSpaces();
    NotSpace('a');
    NotSpace('b');
    StripTrimmed("a b");
  }

  /** Sanitising keeps exactly the characters that are neither forbidden nor
      whitespace, in their order; when there are none it gives `Unknown`. */
  lemma SanitizeKeepsVisible(s: string)
    ensures Visible(s) == [] ==> Sanitize(s) == Fallback
    ensures Visible(s) != [] ==> Visible(Sanitize(s)) == Visible(s)
  {
    if s != [] {
      var removed := RemoveForbidden(s);
      var collapsed := Collapse(removed);
      VisibleRemoveForbidden(s);
      VisibleCollapse(removed);
      CollapseFacts(removed);
      VisibleStrip(collapsed);
      if Visible(s) == [] {
        NothingVisibleIsSpaces(collapsed);
        StripEmpty(collapsed);
      } else {
        assert Strip(collapsed) != [];
      }
    }
  }

  /** Control characters go before whitespace is collapsed: a tab between two
      letters disappears instead of becoming a space. */
  lemma SanitizeDeletesTab()
    ensures Sanitize("a\tb") == "ab"
  {
    assert RemoveForbidden("a\tb") == "ab" by {
      assert IsForbidden('\t');
      assert RemoveForbidden("a\tb") == ['a'] + RemoveForbidden("\tb");
      assert RemoveForbidden("\tb") == RemoveForbidden("b");
    }
    NotSpace('a');
    NotSpace('b');
    NoSpaceSingleSpaced("ab");
    CollapseKeepsSingleSpaced("ab");
    StripTrimmed("ab");
  }

  /** Cutting after sanitising can leave a space at the end of the content
      field, so the field is not always a fixed point of sanitising. */
  lemma TruncationCanEndInSpace(content: string)
    requires |Sanitize(content)| > MaxContentLength && Sanitize(content)[MaxContentLength - 1] == ' '
    ensures Sanitize(ContentField(content)) != ContentField(content)
  {
    var f := ContentField(content);
    assert f[|f| - 1] == ' ';
  }

  // ---------------------------------------------------------------------------
  // generate_filename

  /** Two words free of whitespace and forbidden characters, joined by one
      space, are clean. */
  lemma TwoWordsClean(a: string, b: string)
    requires a != [] && b != [] && NoForbidden(a) && NoForbidden(b)
    requires forall c | c in a + b :: !IsSpace(c)
    ensures Clean(a + " " + b)
  {
    var t := a + " " + b;
    SpaceAndTab();
    assert forall c | c in a :: c in a + b;
    assert forall c | c in b :: c in a + b;
    NoSpaceSingleSpaced(b);
    SpacedWord(a, b);
    assert t[0] == a[0] && t[|t| - 1] == b[|b| - 1];
    assert a[0] in a && b[|b| - 1] in b;
    assert NoForbidden(t) by {
      assert !IsForbidden(' ');
      forall c | c in t ensures !IsForbidden(c) {
        assert c in a || c == ' ' || c in b;
      }
    }
  }

  lemma {:induction false} SpacedWord(a: string, b: string)
    requires b != [] && SingleSpaced(b) && !IsSpace(b[0])
    requires forall c | c in a :: !IsSpace(c)
    ensures SingleSpaced(a + " " + b)
  {
    SpaceAndTab();
    if a == [] {
      assert [] + " " + b == [' '] + b;
      assert ([' '] + b)[1..] == b;
    } else {
      assert a[0] in a;
      assert forall c | c in a[1..] :: c in a;
      SpacedWord(a[1..], b);
      assert (a + " " + b)[1..] == a[1..] + " " + b;
    }
  }

  lemma ExampleUser()
    ensures Sanitize("김철수") == "김철수"
  {
    var user := "김철수";
    forall c | c in user ensures !IsSpace(c) {
      NotSpace(c);
    }
    NoSpaceSingleSpaced(user);
    assert user[0] in user && user[2] in user;
    SanitizeKeepsClean(user);
  }

  lemma ExampleContent()
    ensures ContentField("볼트 M8") == "볼트 M8"
  {
    forall c | c in "볼트" + "M8" ensures !IsSpace(c) {
      NotSpace(c);
    }
    TwoWordsClean("볼트", "M8");
    assert "볼트" + " " + "M8" == "볼트 M8";
    SanitizeKeepsClean("볼트 M8");
  }

  /** Generating the name for user `김철수`, content `볼트 M8` on 5 December
      2024 keeps both fields as they are. */
  lemma GenerateExample()
    ensures GenerateFilename("김철수", "볼트 M8", Timestamp(2024, 12, 5)) == "03.물품사진_241205_김철수_볼트 M8.jpg"
  {
    ExampleUser();
    ExampleContent();
    ExampleDate();
    assert GenerateFilename("김철수", "볼트 M8", Timestamp(2024, 12, 5))
        == Prefix + "_" + "241205" + "_" + "김철수" + "_" + "볼트 M8" + ".jpg";
    ExampleSpelling();
  }

  lemma ExampleSpelling()
    ensures Prefix + "_" + "241205" + "_" + "김철수" + "_" + "볼트 M8" + ".jpg" == "03.물품사진_241205_김철수_볼트 M8.jpg"
  {
  }

  lemma ExampleDate()
    ensures DateCode(Timestamp(2024, 12, 5)) == "241205"
  {
    assert TwoDigits(24) == "24" && TwoDigits(12) == "12" && TwoDigits(5) == "05";
  }

  // ---------------------------------------------------------------------------
  // validate_filename

  lemma LowerJpg(name: string)
    requires |name| >= 4
    requires name[|name| - 4..] == ".jpg" || name[|name| - 4..] == ".JPG"
    ensures EndsWith(Lower(name), ".jpg")
  {
    var l := Lower(name);
    var n := |name|;
    assert name[n - 4] == name[n - 4..][0] && name[n - 3] == name[n - 4..][1];
    assert name[n - 2] == name[n - 4..][2] && name[n - 1] == name[n - 4..][3];
    assert l[n - 4..] == [l[n - 4], l[n - 3], l[n - 2], l[n - 1]];
  }

  /** A generated name validates exactly when it is at most 255 characters
      long, that is when its user and content fields total at most 235. */
  lemma GeneratedNameValidIff(user: string, content: string, t: Timestamp)
    ensures ValidateFilename(GenerateFilename(user, content, t))
            <==> |Sanitize(user)| + |ContentField(content)| <= MaxFilenameLength - 20
  {
    var name := GenerateFilename(user, content, t);
    LowerJpg(name);
  }

  /** A user field of at most 185 characters always gives a valid name. */
  lemma GeneratedNameValid(user: string, content: string, t: Timestamp)
    requires |Sanitize(user)| <= 185
    ensures ValidateFilename(GenerateFilename(user, content, t))
  {
    GeneratedNameValidIff(user, content, t);
  }

  /** A question mark or a 256th character is refused, an upper-case
      extension accepted. */
  lemma ValidateExamples()
    ensures !ValidateFilename("볼트?.jpg")
    ensures !ValidateFilename(seq(252, i => 'a') + ".jpg")
    ensures ValidateFilename("IMG_01.JPG")
    ensures ValidateFilename("a.Jpg")
  {
    assert '?' in "볼트?.jpg" && IsForbidden('?');
    var name := "IMG_01.JPG";
    assert NoForbidden(name) by {
      forall c | c in name ensures !IsForbidden(c) {
      }
    }
    assert Lower(name)[6..] == ".jpg";
    assert NoForbidden("a.Jpg") by {
      forall c | c in "a.Jpg" ensures !IsForbidden(c) {
      }
    }
  }

  /** Validation accepts an upper-case `.JPG`, which generation never writes. */
  lemma ValidateAcceptsUpperCase(name: string)
    requires 4 <= |name| <= MaxFilenameLength && NoForbidden(name)
    requires name[|name| - 4..] == ".JPG"
    ensures ValidateFilename(name)
    ensures !EndsWith(name, ".jpg")
  {
    LowerJpg(name);
  }
}
