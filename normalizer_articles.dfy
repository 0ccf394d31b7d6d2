/// The article rewrite of line 17, and why the normaliser is not idempotent:
/// each match drops a single article, so a second pass can find another one.
/// The pass-by-pass identity lemmas say which texts a pass leaves unchanged.
module NormalizerArticles {
  import opened Text
  import opened Normalizer

  lemma {:induction false} SpaceRunExact(s: string, i: nat, m: nat)
    requires i + m <= |s|
    requires forall j :: i <= j < i + m ==> IsSpace(s[j])
    requires i + m == |s| || !IsSpace(s[i + m])
    ensures SpaceRun(s, i) == m
    decreases m
  {
    if m > 0 {
      SpaceRunExact(s, i + 1, m - 1);
    }
  }

  /** `a`, `an` or `the`, in any case. */
  predicate IsArticle(w: string) {
    LowerStr(w) == "a" || LowerStr(w) == "an" || LowerStr(w) == "the"
  }

  lemma ArticleHead(w: string)
    requires IsArticle(w)
    ensures w != [] && !IsSpace(w[0])
  {
    assert Lower(w[0]) == LowerStr(w)[0];
  }

  lemma ArticleLengthOf(s: string, j: nat, art: string)
    requires j + |art| < |s| && s[j..j + |art|] == art && IsSpace(s[j + |art|])
    requires IsArticle(art)
    ensures ArticleLength(s, j) == |art|
  {
    assert SpaceRun(s, j + |art|) > 0;
    assert Lower(s[j]) == LowerStr(art)[0];
    if |art| == 1 {
      assert CiAt(s, j, "a");
    } else {
      assert Lower(s[j + 1]) == LowerStr(art)[1];
      assert SpaceRun(s, j + 1) == 0;
      if |art| == 2 {
        assert CiAt(s, j, "an");
      } else {
        assert LowerStr(s[j..j + 1])[0] == Lower(s[j]);
        assert LowerStr(s[j..j + 2])[0] == Lower(s[j]);
        assert CiAt(s, j, "the");
      }
    }
  }

  lemma SpacesAt(s: string, i: nat, ws: string)
    requires i + |ws| <= |s| && s[i..i + |ws|] == ws && AllSpace(ws)
    ensures forall j :: i <= j < i + |ws| ==> IsSpace(s[j])
  {
    forall j | i <= j < i + |ws|
      ensures IsSpace(s[j])
    {
      assert s[j] == ws[j - i];
    }
  }

  lemma ArticleMatchAt(s: string, j: nat, m: nat, n: nat)
    requires 2 < j < m < n <= |s|
    requires CiAt(s, 0, "as")
    requires forall k :: 2 <= k < j ==> IsSpace(s[k])
    requires IsArticle(s[j..m])
    requires forall k :: m <= k < n ==> IsSpace(s[k])
    requires n == |s| || !IsSpace(s[n])
    ensures ArticleMatch(s, false) == n
  {
    ArticleHead(s[j..m]);
    assert s[j..m][0] == s[j];
    SpaceRunExact(s, 2, j - 2);
    SpaceRunExact(s, m, n - m);
    ArticleLengthOf(s, j, s[j..m]);
    ArticleMatchOf(s, j - 2, m - j);
  }

  lemma ArticleMatchOf(s: string, w: nat, a: nat)
    requires CiAt(s, 0, "as") && w > 0 && a > 0
    requires SpaceRun(s, 2) == w && ArticleLength(s, 2 + w) == a
    ensures ArticleMatch(s, false) == 2 + w + a + SpaceRun(s, 2 + w + a)
  {
  }

  // Line 17: a standalone `as` (any case), white space, an article (`a`, `an` or `the`, any case) and white space become `as `.
  lemma ArticleDropped(a: string, ws1: string, art: string, ws2: string, rest: string)
    requires LowerStr(a) == "as"
    requires ws1 != [] && AllSpace(ws1) && ws2 != [] && AllSpace(ws2)
    requires IsArticle(art)
    requires rest == [] || !IsSpace(rest[0])
    ensures StripArticles(a + ws1 + art + ws2 + rest, false) == "as " + StripArticles(rest, false)
  {
    var t1 := a + ws1;
    var t2 := t1 + art;
    var t3 := t2 + ws2;
    var s := t3 + rest;
    var j := |t1|;
    var m := |t2|;
    var n := |t3|;
    assert s[..n] == t3 && s[n..] == rest;
    assert t3[..m] == t2 && t3[m..] == ws2;
    assert t2[..j] == t1 && t2[j..] == art;
    assert t1[..2] == a && t1[2..] == ws1;
    assert s[0..2] == a;
    assert s[2..j] == ws1;
    assert s[j..m] == art;
    assert s[m..n] == ws2;
    SpacesAt(s, 2, ws1);
    SpacesAt(s, m, ws2);
    ArticleMatchAt(s, j, m, n);
  }

  // ---------------------------------------------------------------------------
  // Texts each pass leaves unchanged.

  // Whitespace collapsing changes nothing once white space is single plain spaces.
  lemma {:induction false} CollapseFixed(s: string)
    requires forall i :: 0 <= i < |s| && IsSpace(s[i]) ==> s[i] == ' ' && (i + 1 < |s| ==> !IsSpace(s[i + 1]))
    ensures CollapseWhitespace(s) == s
    decreases |s|
  {
    if s != [] {
      assert forall i :: 0 <= i < |s[1..]| ==> s[1..][i] == s[i + 1];
      CollapseFixed(s[1..]);
      if IsSpace(s[0]) {
        assert TrimStart(s) == s[1..];
      }
    }
  }

  // Comma canonicalisation changes nothing in a text without commas.
  lemma {:induction false} CommasFixed(s: string)
    requires forall i :: 0 <= i < |s| ==> s[i] != ','
    ensures NormalizeCommas(s) == s
    decreases |s|
  {
    if s != [] {
      var t := TrimStart(s);
      TrimStartSlices(s);
      assert t != [] ==> t[0] == s[|s| - |t|];
      CommasFixed(s[1..]);
    }
  }

  // The period rewrite changes nothing when the text does not end in a period or white space.
  lemma TerminateFixed(s: string)
    requires s != [] && s[|s| - 1] != '.' && !IsSpace(s[|s| - 1])
    ensures TerminatePeriod(s) == s
  {
  }

  // Keyword lower-casing changes nothing in a text without upper-case letters.
  lemma {:induction false} LowerKeywordsFixed(s: string, w: bool)
    requires forall i :: 0 <= i < |s| ==> !('A' <= s[i] <= 'Z')
    ensures LowerKeywords(s, w) == s
    decreases |s|
  {
    if s != [] {
      var k := KeywordMatch(s, w);
      if k != "" {
        LowerKeywordsFixed(s[|k|..], true);
        KeywordKept(s, |k|);
      } else {
        LowerKeywordsFixed(s[1..], IsWordChar(s[0]));
      }
    }
  }

  lemma KeywordKept(s: string, n: nat)
    requires n <= |s|
    requires forall i :: 0 <= i < |s| ==> !('A' <= s[i] <= 'Z')
    requires LowerKeywords(s[n..], true) == s[n..]
    ensures LowerStr(s[..n]) + LowerKeywords(s[n..], true) == s
  {
    LowerStrNoUpper(s[..n]);
    SplitJoin(s, n);
  }

  // The `if`/`whenever` rewrite changes nothing in a text without the letters `i` and `w`.
  lemma {:induction false} UnifyFixed(s: string, w: bool)
    requires forall i :: 0 <= i < |s| ==> s[i] != 'i' && s[i] != 'w'
    ensures UnifyConditionWords(s, w) == s
    decreases |s|
  {
    if s != [] {
      if |s| >= 2 {
        assert s[..2][0] == s[0];
      }
      if |s| >= 8 {
        assert s[..8][0] == s[0];
      }
      UnifyFixed(s[1..], IsWordChar(s[0]));
    }
  }

  lemma TrimFixed(s: string)
    requires s != [] && !IsSpace(s[0]) && !IsSpace(s[|s| - 1])
    ensures Trim(s) == s
  {
  }

  // ---------------------------------------------------------------------------
  // Not idempotent: `"as a a x"` normalises to `"as a x"`, which normalises to `"as x"`,
  // for every final letter `x` the later passes leave alone.

  /** A lower-case letter other than `i` and `w`, so that no keyword starts at it. */
  predicate PlainLetter(c: char) {
    'a' <= c <= 'z' && c != 'i' && c != 'w'
  }

  lemma StripOnce(c: char)
    requires PlainLetter(c)
    ensures StripArticles("as a a " + [c], false) == "as a " + [c]
  {
    var r := "a " + [c];
    RegroupArticles(c);
    StripAfterAsA(r);
    StripKeeps(c);
  }

  lemma RegroupArticles(c: char)
    ensures "as a a " + [c] == "as a " + ("a " + [c])
    ensures "as " + ("a " + [c]) == "as a " + [c]
  {
  }

  lemma StripTwice(c: char)
    requires PlainLetter(c)
    ensures StripArticles("as a " + [c], false) == "as " + [c]
  {
    StripAfterAsA([c]);
    StripLetter(c);
  }

  lemma StripLetter(c: char)
    ensures StripArticles([c], false) == [c]
  {
    assert ArticleMatch([c], false) == 0;
    assert [c][1..] == [];
  }

  lemma StripSpaceLetter(c: char)
    ensures StripArticles(" " + [c], true) == " " + [c]
  {
    var s := " " + [c];
    assert ArticleMatch(s, true) == 0;
    assert s[1..] == [c];
    StripLetter(c);
  }

  lemma StripKeeps(c: char)
    ensures StripArticles("a " + [c], false) == "a " + [c]
  {
    var s := "a " + [c];
    assert s[0..2] == "a ";
    assert LowerStr(s[0..2])[1] == ' ';
    assert ArticleMatch(s, false) == 0;
    assert s[1..] == " " + [c];
    StripSpaceLetter(c);
  }

  // The article after a leading `as` is dropped.
  lemma StripAfterAsA(r: string)
    requires r != [] && !IsSpace(r[0])
    ensures StripArticles("as a " + r, false) == "as " + StripArticles(r, false)
  {
    AsArticleMatch(r);
    var s := "as a " + r;
    assert s[5..] == r;
  }

  // `as a ` followed by a non-space is a match of five characters.
  lemma AsArticleMatch(rest: string)
    requires rest != [] && !IsSpace(rest[0])
    ensures ArticleMatch("as a " + rest, false) == 5
  {
    var s := "as a " + rest;
    assert s[..5] == "as a ";
    assert s[5] == rest[0];
    assert LowerStr(s[0..2]) == "as";
    assert SpaceRun(s, 3) == 0;
    assert SpaceRun(s, 2) == 1;
    assert LowerStr(s[3..4]) == "a";
    assert SpaceRun(s, 5) == 0;
    assert SpaceRun(s, 4) == 1;
    assert ArticleLength(s, 3) == 1;
  }

  // Plain lower-case text: single spaces, no comma, no period, no upper-case letter, no `i` or `w`, nothing to trim.
  predicate Plain(s: string) {
    && s != [] && s[0] != ' ' && s[|s| - 1] != ' '
    && (forall i :: 0 <= i < |s| ==> s[i] == ' ' || 'a' <= s[i] <= 'z')
    && (forall i :: 0 <= i < |s| ==> s[i] != 'i' && s[i] != 'w')
    && (forall i :: 0 <= i < |s| - 1 ==> !(s[i] == ' ' && s[i + 1] == ' '))
  }

  // On plain text the normaliser reduces to its article rewrite, if that leaves plain text.
  lemma NormalizePlain(x: string)
    requires Plain(x) && Plain(StripArticles(x, false))
    ensures Normalize(x) == StripArticles(x, false)
  {
    var y := StripArticles(x, false);
    PlainFirstPasses(x);
    PlainLastPasses(y);
  }

  lemma PlainFirstPasses(x: string)
    requires Plain(x)
    ensures TerminatePeriod(NormalizeCommas(CollapseWhitespace(x))) == x
  {
    CollapseFixed(x);
    CommasFixed(x);
    TerminateFixed(x);
  }

  lemma PlainLastPasses(y: string)
    requires Plain(y)
    ensures Trim(UnifyConditionWords(LowerKeywords(y, false), false)) == y
  {
    LowerKeywordsFixed(y, false);
    UnifyFixed(y, false);
    TrimFixed(y);
  }

  lemma PlainExamples(c: char)
    requires PlainLetter(c)
    ensures Plain("as a a " + [c]) && Plain("as a " + [c]) && Plain("as " + [c])
  {
  }

  lemma NormalizeOnce(c: char)
    requires PlainLetter(c)
    ensures Normalize("as a a " + [c]) == "as a " + [c]
  {
    StripOnce(c);
    PlainExamples(c);
    NormalizePlain("as a a " + [c]);
  }

  lemma NormalizeTwice(c: char)
    requires PlainLetter(c)
    ensures Normalize("as a " + [c]) == "as " + [c]
  {
    StripTwice(c);
    PlainExamples(c);
    NormalizePlain("as a " + [c]);
  }

  // Line 17 removes one article per match, so normalising twice can differ from normalising once.
  lemma NormalizeNotIdempotent(c: char)
    requires PlainLetter(c)
    ensures Normalize(Normalize("as a a " + [c])) != Normalize("as a a " + [c])
  {
    NormalizeOnce(c);
    NormalizeTwice(c);
  }
}
