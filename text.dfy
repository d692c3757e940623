/** The string predicates the network relies on: Java's blank test, the
    case-insensitive whole-word search behind `containing` and
    `sortByRelevance`, and the literal replacement of banned strings. */
module Text {

  /** Java's `s.trim().isEmpty()`: `trim` strips every character whose code
      is at most U+0020, so a string is blank when it has no other character
      (the empty string included). */
  predicate Blank(s: string)
  {
    |s| == 0 || (s[0] <= ' ' && Blank(s[1..]))
  }

  /** `Blank` holds exactly when every character is at most U+0020. */
  lemma {:induction false} BlankIffAllSpace(s: string)
    ensures Blank(s) <==> forall i :: 0 <= i < |s| ==> s[i] <= ' '
  {
    if |s| > 0 {
      BlankIffAllSpace(s[1..]);
      assert forall i :: 1 <= i < |s| ==> s[1..][i - 1] == s[i];
    }
  }

  /** Java's `s.length()`: the number of UTF-16 code units, two for a
      character above U+FFFF (a surrogate pair) and one for any other. */
  function Utf16Length(s: string): (n: nat)
    ensures |s| <= n <= 2 * |s|
  {
    if |s| == 0 then 0
    else (if s[0] as int > 0xFFFF then 2 else 1) + Utf16Length(s[1..])
  }

  /** A text of characters above U+FFFF is twice as long in UTF-16 units as
      in characters. */
  lemma {:induction false} SupplementaryCountsTwice(s: string)
    requires forall i :: 0 <= i < |s| ==> s[i] as int > 0xFFFF
    ensures Utf16Length(s) == 2 * |s|
  {
    if |s| > 0 {
      assert forall i :: 0 <= i < |s[1..]| ==> s[1..][i] == s[i + 1];
      SupplementaryCountsTwice(s[1..]);
    }
  }

  /** A text of characters up to U+FFFF has one UTF-16 unit per character. */
  lemma {:induction false} BasicPlaneCountsOnce(s: string)
    requires forall i :: 0 <= i < |s| ==> s[i] as int <= 0xFFFF
    ensures Utf16Length(s) == |s|
  {
    if |s| > 0 {
      assert forall i :: 0 <= i < |s[1..]| ==> s[1..][i] == s[i + 1];
      BasicPlaneCountsOnce(s[1..]);
    }
  }

  // ---------------------------------------------------------------------
  // Whole-word, case-insensitive search: the pattern ".*\b" + w + "\b.*"
  // compiled with CASE_INSENSITIVE and matched against the whole text.
  // ---------------------------------------------------------------------

  /** A character of the regex class \w (ASCII letters, digits, underscore). */
  predicate IsWordChar(c: char)
  {
    ('a' <= c <= 'z') || ('A' <= c <= 'Z') || ('0' <= c <= '9') || c == '_'
  }

  /** Position `i` of `s` exists and holds a word character. */
  predicate WordAt(s: string, i: int)
  {
    0 <= i < |s| && IsWordChar(s[i])
  }

  /** \b holds at position `i` (between s[i-1] and s[i]) when exactly one of
      the two neighbours is a word character; outside the string counts as a
      non-word character. */
  predicate Boundary(s: string, i: int)
  {
    WordAt(s, i - 1) != WordAt(s, i)
  }

  /** ASCII lower-casing, the only folding CASE_INSENSITIVE does without
      UNICODE_CASE. */
  function Lower(c: char): char
  {
    if 'A' <= c <= 'Z' then (c as int + 32) as char else c
  }

  /** Two strings that are equal up to ASCII case. */
  predicate SameIgnoringCase(a: string, b: string)
  {
    |a| == |b| && forall i :: 0 <= i < |a| ==> Lower(a[i]) == Lower(b[i])
  }

  /** `w` occurs in `text` at position `i`, bounded by \b on both sides. */
  predicate WordAtPos(text: string, w: string, i: int)
  {
    0 <= i && i + |w| <= |text| &&
    Boundary(text, i) &&
    SameIgnoringCase(text[i..i + |w|], w) &&
    Boundary(text, i + |w|)
  }

  /** `containsExactly(text, w)` (MicroBlog.java): the whole-word match. */
  predicate ContainsWord(text: string, w: string)
  {
    exists i :: 0 <= i <= |text| - |w| && WordAtPos(text, w, i)
  }

  /** A word that appears as a whole word is found. */
  lemma CatFoundInSentence()
    ensures ContainsWord("I have a cat", "cat")
  {
    assert WordAtPos("I have a cat", "cat", 9);
  }

  /** A word that is only part of a larger word is not found. */
  lemma CatNotFoundInsideWord()
    ensures !ContainsWord("concatenate", "cat")
  {
    var t := "concatenate";
    forall i | 0 <= i <= |t| - 3
      ensures !WordAtPos(t, "cat", i)
    {
      if i == 0 {
        assert Lower(t[1]) != Lower("cat"[1]);
      } else {
        assert WordAt(t, i - 1) && WordAt(t, i);
      }
    }
  }

  /** The query's case does not matter: two queries equal up to ASCII case
      match the same texts. */
  lemma ContainsWordCaseBlind(text: string, w: string, w': string)
    requires SameIgnoringCase(w, w')
    ensures ContainsWord(text, w) <==> ContainsWord(text, w')
  {
    if ContainsWord(text, w) {
      var i :| 0 <= i <= |text| - |w| && WordAtPos(text, w, i);
      assert WordAtPos(text, w', i);
    }
    if ContainsWord(text, w') {
      var i :| 0 <= i <= |text| - |w'| && WordAtPos(text, w', i);
      assert WordAtPos(text, w, i);
    }
  }

  /** Matching ignores ASCII case. */
  lemma MatchIgnoresCase()
    ensures ContainsWord("Cats and DOGS", "dogs")
  {
    var t := "Cats and DOGS";
    assert t[9..13] == "DOGS";
    assert WordAtPos(t, "dogs", 9);
  }

  // ---------------------------------------------------------------------
  // Literal replacement of a banned string with "***".
  // ---------------------------------------------------------------------

  const Stars: string := "***"

  /** No character of `t` is '*'. */
  predicate StarFree(t: string)
  {
    forall i :: 0 <= i < |t| ==> t[i] != '*'
  }

  /** `v` occurs in `s` starting at position `i`. */
  predicate OccursAt(s: string, v: string, i: int)
  {
    0 <= i && i + |v| <= |s| && s[i..i + |v|] == v
  }

  /** `v` occurs as a substring of `s`. */
  predicate Occurs(s: string, v: string)
  {
    exists i :: 0 <= i <= |s| && OccursAt(s, v, i)
  }

  /** `s.replaceAll(w, "***")` for a `w` read literally: scanning left to
      right, every non-overlapping occurrence of `w` becomes "***". */
  function Censor(s: string, w: string): string
    requires |w| > 0
    decreases |s|
  {
    if |s| == 0 then ""
    else if |w| <= |s| && s[..|w|] == w then Stars + Censor(s[|w|..], w)
    else [s[0]] + Censor(s[1..], w)
  }

  /** A text in which `w` does not occur is left as it is. */
  lemma {:induction false} CensorAbsentUnchanged(s: string, w: string)
    requires |w| > 0 && !Occurs(s, w)
    ensures Censor(s, w) == s
    decreases |s|
  {
    if |s| > 0 {
      assert !OccursAt(s, w, 0);
      AbsentFromSuffix(s, w, 1);
      CensorAbsentUnchanged(s[1..], w);
      assert s == [s[0]] + s[1..];
    }
  }

  /** Censoring never makes a non-blank text blank: every replacement
      contributes '*', which is not blank. */
  lemma {:induction false} CensorKeepsNonBlank(s: string, w: string)
    requires |w| > 0
    requires !Blank(s)
    ensures !Blank(Censor(s, w))
  {
    var out := Censor(s, w);
    if |w| <= |s| && s[..|w|] == w {
      assert out == Stars + Censor(s[|w|..], w);
      assert out[0] == '*';
    } else {
      var r := Censor(s[1..], w);
      assert out == [s[0]] + r;
      assert out[1..] == r;
      if s[0] <= ' ' {
        CensorKeepsNonBlank(s[1..], w);
      }
    }
  }

  /** Up to its first '*', the censored text is the original text. */
  lemma {:induction false} CensorStarFreePrefix(s: string, w: string, k: nat)
    requires |w| > 0
    requires k <= |Censor(s, w)|
    ensures StarFree(Censor(s, w)[..k]) ==> k <= |s| && Censor(s, w)[..k] == s[..k]
    decreases |s|
  {
    var out := Censor(s, w);
    if k == 0 {
    } else if |w| <= |s| && s[..|w|] == w {
      assert out == Stars + Censor(s[|w|..], w);
      assert out[..k][0] == '*';
    } else {
      var r := Censor(s[1..], w);
      assert out == [s[0]] + r;
      assert r[..k - 1] == out[..k][1..];
      CensorStarFreePrefix(s[1..], w, k - 1);
      assert out[..k] == [s[0]] + r[..k - 1];
    }
  }

  /** A suffix of a text free of `v` is itself free of `v`. */
  lemma AbsentFromSuffix(s: string, v: string, n: nat)
    requires n <= |s|
    requires !Occurs(s, v)
    ensures !Occurs(s[n..], v)
  {
    forall i | 0 <= i <= |s[n..]|
      ensures !OccursAt(s[n..], v, i)
    {
      if i + |v| <= |s| - n {
        assert s[n..][i..i + |v|] == s[n + i..n + i + |v|];
      }
      assert !OccursAt(s, v, n + i);
    }
  }

  /** Three stars in front of a text free of a star-free `v` create no
      occurrence of `v`. */
  lemma AbsentAfterStars(r: string, v: string)
    requires |v| > 0 && StarFree(v) && !Occurs(r, v)
    ensures !Occurs(Stars + r, v)
  {
    var out := Stars + r;
    forall i | 0 <= i <= |out|
      ensures !OccursAt(out, v, i)
    {
      if i < 3 {
        assert out[i] == '*';
      } else {
        if i + |v| <= |out| {
          assert out[i..i + |v|] == r[i - 3..i - 3 + |v|];
        }
        assert !OccursAt(r, v, i - 3);
      }
    }
  }

  /** One character in front of a text free of `v` creates an occurrence
      of `v` only at the front. */
  lemma AbsentAfterChar(c: char, r: string, v: string)
    requires !Occurs(r, v) && !OccursAt([c] + r, v, 0)
    ensures !Occurs([c] + r, v)
  {
    var out := [c] + r;
    forall i | 1 <= i <= |out|
      ensures !OccursAt(out, v, i)
    {
      if i + |v| <= |out| {
        assert out[i..i + |v|] == r[i - 1..i - 1 + |v|];
      }
      assert !OccursAt(r, v, i - 1);
    }
  }

  /** When `s` does not start with `w`, its censored text starts with no
      star-free `v` that `s` does not start with. */
  lemma NoNewFront(s: string, w: string, v: string)
    requires |w| > 0 && |s| > 0 && StarFree(v)
    requires !(|w| <= |s| && s[..|w|] == w)
    requires !OccursAt(s, v, 0)
    ensures !OccursAt(Censor(s, w), v, 0)
  {
    var out := Censor(s, w);
    if |v| <= |out| {
      CensorStarFreePrefix(s, w, |v|);
      var front := out[..|v|];
      assert front != v;
    }
  }

  /** Censoring `w` leaves no occurrence of `w` behind, when `w` has no '*'. */
  lemma {:induction false} CensorRemoves(s: string, w: string)
    requires |w| > 0 && StarFree(w)
    ensures !Occurs(Censor(s, w), w)
    decreases |s|
  {
    if |s| == 0 {
    } else if |w| <= |s| && s[..|w|] == w {
      CensorRemoves(s[|w|..], w);
      AbsentAfterStars(Censor(s[|w|..], w), w);
    } else {
      CensorRemoves(s[1..], w);
      NoNewFront(s, w, w);
      AbsentAfterChar(s[0], Censor(s[1..], w), w);
    }
  }

  /** Censoring `w` creates no occurrence of another star-free string `v`. */
  lemma {:induction false} CensorKeepsAbsent(s: string, w: string, v: string)
    requires |w| > 0 && |v| > 0 && StarFree(v)
    requires !Occurs(s, v)
    ensures !Occurs(Censor(s, w), v)
    decreases |s|
  {
    if |s| == 0 {
    } else if |w| <= |s| && s[..|w|] == w {
      AbsentFromSuffix(s, v, |w|);
      CensorKeepsAbsent(s[|w|..], w, v);
      AbsentAfterStars(Censor(s[|w|..], w), v);
    } else {
      AbsentFromSuffix(s, v, 1);
      CensorKeepsAbsent(s[1..], w, v);
      assert !OccursAt(s, v, 0);
      NoNewFront(s, w, v);
      AbsentAfterChar(s[0], Censor(s[1..], w), v);
    }
  }
}
