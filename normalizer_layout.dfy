/// What the normaliser guarantees about white space, commas and the final
/// period, proved pass by pass. The facts are local: each one constrains a
/// position of the text and at most the two characters after it (plus, for the
/// period, whether only white space follows), so each is stated for a suffix
/// `t` of the text and required of every suffix.
module NormalizerLayout {
  import opened Text
  import opened Normalizer

  // Every white space character is a plain space, and it is not followed by another white space character.
  predicate SpacedAt(t: string) {
    t != [] && IsSpace(t[0]) ==> t[0] == ' ' && (|t| >= 2 ==> !IsSpace(t[1]))
  }

  // A comma is followed by a space, or ends the text, or is followed by a final period;
  // white space stands before a comma only right after another comma.
  predicate CommaAt(t: string) {
    && (t != [] && t[0] == ',' ==> |t| == 1 || t[1] == ' ' || (t[1] == '.' && |t| == 2))
    && (|t| >= 3 && IsSpace(t[1]) && t[2] == ',' ==> t[0] == ',')
  }

  // White space never stands right before a period that only white space follows.
  predicate PeriodAt(t: string) {
    |t| >= 2 && IsSpace(t[0]) && t[1] == '.' ==> !AllSpace(t[2..])
  }

  predicate TidyAt(t: string) {
    SpacedAt(t) && CommaAt(t) && PeriodAt(t)
  }

  predicate Spaced(s: string) {
    forall i :: 0 <= i < |s| ==> SpacedAt(s[i..])
  }

  predicate CommasTidyAt(t: string) {
    SpacedAt(t) && CommaAt(t)
  }

  predicate CommasTidy(s: string) {
    forall i :: 0 <= i < |s| ==> CommasTidyAt(s[i..])
  }

  predicate Tidy(s: string) {
    forall i :: 0 <= i < |s| ==> TidyAt(s[i..])
  }

  // ---------------------------------------------------------------------------
  // Generic facts about suffixes of a concatenation.

  lemma Lift(P: string -> bool, e: string, r: string)
    requires forall j :: 0 <= j < |r| ==> P(r[j..])
    requires forall i :: 0 <= i < |e| ==> P(e[i..] + r)
    ensures forall k :: 0 <= k < |e + r| ==> P((e + r)[k..])
  {
    forall k | 0 <= k < |e + r|
      ensures P((e + r)[k..])
    {
      if k < |e| {
        assert (e + r)[k..] == e[k..] + r;
      } else {
        assert (e + r)[k..] == r[k - |e|..];
      }
    }
  }

  lemma TidySuffix(s: string, n: nat)
    requires Tidy(s) && n <= |s|
    ensures Tidy(s[n..])
  {
    forall j | 0 <= j < |s[n..]|
      ensures TidyAt(s[n..][j..])
    {
      assert s[n..][j..] == s[n + j..];
    }
  }

  // ---------------------------------------------------------------------------
  // Pass 1: white space collapses into single plain spaces.

  lemma {:induction false} CollapseSpaced(s: string)
    ensures Spaced(CollapseWhitespace(s))
    ensures |CollapseWhitespace(s)| == 0 <==> s == []
    ensures s != [] ==> (IsSpace(CollapseWhitespace(s)[0]) <==> IsSpace(s[0]))
    decreases |s|
  {
    if s == [] {
    } else if IsSpace(s[0]) {
      var t := TrimStart(s);
      CollapseSpaced(t);
      Lift(SpacedAt, " ", CollapseWhitespace(t));
    } else {
      CollapseSpaced(s[1..]);
      Lift(SpacedAt, [s[0]], CollapseWhitespace(s[1..]));
    }
  }

  // ---------------------------------------------------------------------------
  // Pass 2: commas.

  // The first characters of the comma pass: it starts a `", "` exactly where a comma opens the text after white space.
  lemma NormalizeCommasStart(x: string)
    ensures |NormalizeCommas(x)| == 0 <==> x == []
    ensures x != [] && TrimStart(x) != [] && TrimStart(x)[0] == ',' ==>
      |NormalizeCommas(x)| >= 2 && NormalizeCommas(x)[0] == ',' && NormalizeCommas(x)[1] == ' '
    ensures x != [] && !(TrimStart(x) != [] && TrimStart(x)[0] == ',') ==>
      NormalizeCommas(x) == [x[0]] + NormalizeCommas(x[1..])
  {
  }

  // The comma pass never starts its output with white space followed by a comma.
  lemma NormalizeCommasHead(x: string)
    ensures !(|NormalizeCommas(x)| >= 2 && IsSpace(NormalizeCommas(x)[0]) && NormalizeCommas(x)[1] == ',')
  {
    NormalizeCommasStart(x);
    if x != [] && !(TrimStart(x) != [] && TrimStart(x)[0] == ',') && IsSpace(x[0]) {
      NormalizeCommasStart(x[1..]);
      assert TrimStart(x) == TrimStart(x[1..]);
    }
  }

  lemma SpacedSuffix(s: string, n: nat)
    requires Spaced(s) && n <= |s|
    ensures Spaced(s[n..])
  {
    forall j | 0 <= j < |s[n..]|
      ensures SpacedAt(s[n..][j..])
    {
      assert s[n..][j..] == s[n + j..];
    }
  }

  lemma {:induction false} NormalizeCommasTidy(s: string)
    requires Spaced(s)
    ensures CommasTidy(NormalizeCommas(s))
    decreases |s|
  {
    if s == [] {
      return;
    }
    var t := TrimStart(s);
    if t != [] && t[0] == ',' {
      var u := TrimStart(t[1..]);
      assert NormalizeCommas(s) == ", " + NormalizeCommas(u);
      TrimStartTwice(s);
      SpacedSuffix(s, |s| - |u|);
      NormalizeCommasTidy(u);
      NormalizeCommasStart(u);
      CommaStep(NormalizeCommas(u));
    } else {
      assert NormalizeCommas(s) == [s[0]] + NormalizeCommas(s[1..]);
      SpacedSuffix(s, 1);
      NormalizeCommasTidy(s[1..]);
      CopyFacts(s);
      CopyStep(s[0], NormalizeCommas(s[1..]));
    }
  }

  lemma TrimStartTwice(s: string)
    requires TrimStart(s) != []
    ensures var u := TrimStart(TrimStart(s)[1..]); |u| <= |s| && u == s[|s| - |u|..]
  {
    var t := TrimStart(s);
    var k := |s| - |t|;
    TrimStartSlices(s);
    var v := t[1..];
    var u := TrimStart(v);
    TrimStartSlices(v);
    var m := |v| - |u|;
    assert u == v[m..];
    assert v[m..] == s[k + 1 + m..];
  }

  // The facts the copy case needs about the rest of the comma pass's output.
  lemma CopyFacts(s: string)
    requires s != [] && Spaced(s)
    requires !(TrimStart(s) != [] && TrimStart(s)[0] == ',')
    ensures s[0] != ','
    ensures var r := NormalizeCommas(s[1..]);
      && (IsSpace(s[0]) ==> s[0] == ' ' && (r != [] ==> !IsSpace(r[0])))
      && !(|r| >= 2 && IsSpace(r[0]) && r[1] == ',')
  {
    NormalizeCommasStart(s[1..]);
    NormalizeCommasHead(s[1..]);
    assert s[0..] == s;
    assert SpacedAt(s);
    if |s| >= 2 {
      assert s[1..][0] == s[1];
    }
    if IsSpace(s[0]) && s[1..] != [] {
      assert TrimStart(s) == TrimStart(s[1..]);
    }
  }

  lemma CommaStep(r: string)
    requires r == [] || !IsSpace(r[0])
    requires CommasTidy(r)
    ensures CommasTidy(", " + r)
  {
    assert CommasTidyAt(", " + r);
    assert (", " + r)[1..] == " " + r;
    assert CommasTidyAt(" " + r);
    Lift(CommasTidyAt, ", ", r);
  }

  lemma CopyStep(c: char, r: string)
    requires c != ','
    requires IsSpace(c) ==> c == ' ' && (r != [] ==> !IsSpace(r[0]))
    requires !(|r| >= 2 && IsSpace(r[0]) && r[1] == ',')
    requires CommasTidy(r)
    ensures CommasTidy([c] + r)
  {
    assert CommasTidyAt([c] + r);
    Lift(CommasTidyAt, [c], r);
  }

  // ---------------------------------------------------------------------------
  // Pass 3: the final period.

  lemma TerminatePeriodTidy(s: string)
    requires CommasTidy(s)
    ensures Tidy(TerminatePeriod(s))
  {
    var t := TrimEnd(s);
    if t != [] && t[|t| - 1] == '.' {
      TerminateFiredTidy(s);
    } else {
      TerminateUnfiredTidy(s);
    }
  }

  // The period pass fired: the white space before the final period is gone.
  lemma TerminateFiredTidy(s: string)
    requires CommasTidy(s)
    requires var t := TrimEnd(s); t != [] && t[|t| - 1] == '.'
    ensures Tidy(TerminatePeriod(s))
  {
    var p := |TrimEnd(s)| - 1;
    FiredShape(s);
    KeptThenPeriodTidy(s, TrimEnd(TrimEnd(s)[..p]), p);
  }

  lemma KeptThenPeriodTidy(s: string, v: string, p: nat)
    requires CommasTidy(s)
    requires |v| <= p < |s| && v == s[..|v|] && s[p] == '.'
    requires AllSpace(s[|v|..p])
    requires v != [] ==> !IsSpace(v[|v| - 1])
    ensures Tidy(v + ".")
  {
    forall i | 0 <= i < |v + "."|
      ensures TidyAt((v + ".")[i..])
    {
      if i < |v| {
        assert CommasTidyAt(s[i..]);
        FiredPosition(s, v, p, i);
      } else {
        assert (v + ".")[i..] == ".";
      }
    }
  }

  // Where the kept text, the removed white space and the final period lie in `s` when the period pass fires.
  lemma FiredShape(s: string)
    requires var t := TrimEnd(s); t != [] && t[|t| - 1] == '.'
    ensures var p := |TrimEnd(s)| - 1;
      var v := TrimEnd(TrimEnd(s)[..p]);
      && TerminatePeriod(s) == v + "."
      && |v| <= p < |s| && v == s[..|v|] && s[p] == '.'
      && AllSpace(s[|v|..p])
      && (v != [] ==> !IsSpace(v[|v| - 1]))
  {
    var t := TrimEnd(s);
    TrimEndSlices(s);
    var v := TrimEnd(t[..|t| - 1]);
    TrimEndSlices(t[..|t| - 1]);
    assert t[..|t| - 1] == s[..|t| - 1];
    assert s[|v|..|t| - 1] == t[..|t| - 1][|v|..];
  }

  // The period pass did not fire, so no white space stands before a final period.
  lemma TerminateUnfiredTidy(s: string)
    requires CommasTidy(s)
    requires var t := TrimEnd(s); t == [] || t[|t| - 1] != '.'
    ensures Tidy(TerminatePeriod(s))
  {
    assert TerminatePeriod(s) == s;
    forall i | 0 <= i < |s|
      ensures TidyAt(s[i..])
    {
      assert CommasTidyAt(s[i..]);
      PeriodAtOrFinal(s, i);
    }
  }

  // A position that breaks `PeriodAt` is white space right before a period that ends the trimmed text.
  lemma PeriodAtOrFinal(s: string, i: nat)
    requires i < |s|
    ensures PeriodAt(s[i..]) || (i + 2 <= |s| && TrimEnd(s) == s[..i + 2] && s[i + 1] == '.')
  {
    var u := s[i..];
    if !PeriodAt(u) {
      assert u[2..] == s[i + 2..];
      SplitJoin(s, i + 2);
      TrimEndBeforeSpace(s[..i + 2], s[i + 2..]);
    }
  }

  // A position before the final period, once the period pass has removed the white space in front of that period.
  lemma FiredPosition(s: string, v: string, p: nat, i: nat)
    requires |v| <= p < |s| && v == s[..|v|] && s[p] == '.'
    requires AllSpace(s[|v|..p])
    requires v != [] ==> !IsSpace(v[|v| - 1])
    requires i < |v|
    requires CommasTidyAt(s[i..])
    ensures TidyAt((v + ".")[i..])
  {
    var o := (v + ".")[i..];
    assert |o| == |v| - i + 1;
    assert o[0] == s[i];
    assert o[|v| - i] == '.';
    assert forall k :: 0 <= k < |v| - i ==> o[k] == s[i + k];
    if IsSpace(o[0]) {
      assert i < |v| - 1;
      assert o[2..][|v| - i - 2] == '.';
    }
  }

  // ---------------------------------------------------------------------------
  // Passes 4 and 6 rewrite words and copy everything else. What the layout
  // facts need from such a pass is that the front of its output agrees with
  // the front of its input: a word character stays a word character, and any
  // other character (up to the second one) is copied, with the rest being
  // white space exactly when it was.

  predicate FrontAgrees(r: string, x: string) {
    && (r == [] <==> x == [])
    && (x != [] && IsWordChar(x[0]) ==> IsWordChar(r[0]))
    && (x != [] && !IsWordChar(x[0]) ==>
          && r[0] == x[0]
          && (|r| == 1 <==> |x| == 1)
          && (AllSpace(r[1..]) <==> AllSpace(x[1..]))
          && (|x| >= 2 && IsWordChar(x[1]) ==> IsWordChar(r[1]))
          && (|x| >= 2 && !IsWordChar(x[1]) ==> r[1] == x[1]))
  }

  lemma CopyKeepsTidy(c: char, r: string, x: string)
    requires FrontAgrees(r, x)
    requires TidyAt([c] + x)
    requires Tidy(r)
    ensures Tidy([c] + r)
  {
    if |r| >= 1 {
      assert ([c] + r)[2..] == r[1..];
      assert ([c] + x)[2..] == x[1..];
    }
    assert TidyAt([c] + r);
    Lift(TidyAt, [c], r);
  }

  // The facts about `StripArticles` that the layout proof needs.

  // What an article match of length `n` at the start of `s` looks like: it starts with a word character and ends
  // with white space that is not preceded by a comma, after which no white space follows.
  predicate MatchShape(s: string, n: nat) {
    && 5 <= n <= |s| && IsWordChar(s[0]) && IsSpace(s[n - 1]) && s[n - 2] != ','
    && (n < |s| ==> !IsSpace(s[n]))
  }

  lemma ArticleMatchShape(s: string, w: bool)
    ensures var n := ArticleMatch(s, w); n > 0 ==> MatchShape(s, n)
  {
    var n := ArticleMatch(s, w);
    ArticleMatchParts(s, w);
    if n > 0 {
      var ws := SpaceRun(s, 2);
      AfterAs(s, ws);
    }
  }

  lemma AfterAs(s: string, ws: nat)
    requires CiAt(s, 0, "as") && ws > 0 && ArticleLength(s, 2 + ws) > 0
    ensures var j := 2 + ws + ArticleLength(s, 2 + ws); MatchShape(s, j + SpaceRun(s, j))
  {
    CiAtChar(s, 0, "as", 0);
    ArticleLengthShape(s, 2 + ws);
    SpaceAfterWord(s, 2 + ws + ArticleLength(s, 2 + ws));
  }

  // The run of white space after a word character ends the match.
  lemma SpaceAfterWord(s: string, j: nat)
    requires 4 <= j < |s| && IsWordChar(s[0]) && IsWordChar(s[j - 1]) && SpaceRun(s, j) > 0
    ensures MatchShape(s, j + SpaceRun(s, j))
  {
    var n := j + SpaceRun(s, j);
    SpaceRunSpaces(s, j);
    if n - 2 >= j {
      assert IsSpace(s[n - 2]);
    }
  }

  // A match is `as`, a non-empty run of white space, an article and what follows it.
  lemma ArticleMatchParts(s: string, w: bool)
    ensures var n := ArticleMatch(s, w);
      n > 0 ==>
        var ws := SpaceRun(s, 2);
        var a := ArticleLength(s, 2 + ws);
        && !w && CiAt(s, 0, "as") && ws > 0 && a > 0
        && n == 2 + ws + a + SpaceRun(s, 2 + ws + a)
  {
  }

  // An article ends in a word character and is followed by white space.
  lemma ArticleLengthShape(s: string, j: nat)
    ensures var a := ArticleLength(s, j);
      a > 0 ==> j + a < |s| && IsWordChar(s[j + a - 1]) && SpaceRun(s, j + a) > 0
  {
    var a := ArticleLength(s, j);
    if a == 1 {
      CiAtChar(s, j, "a", 0);
    } else if a == 2 {
      CiAtChar(s, j, "an", 1);
    } else if a == 3 {
      CiAtChar(s, j, "the", 2);
    }
  }

  lemma {:induction false} StripArticlesStart(x: string, w: bool)
    ensures StripArticles(x, w) == [] <==> x == []
    ensures x != [] && !IsWordChar(x[0]) ==> StripArticles(x, w) == [x[0]] + StripArticles(x[1..], false)
    ensures x != [] && IsWordChar(x[0]) ==> IsWordChar(StripArticles(x, w)[0])
  {
    ArticleMatchShape(x, w);
  }

  lemma {:induction false} StripArticlesAllSpace(x: string, w: bool)
    ensures AllSpace(StripArticles(x, w)) <==> AllSpace(x)
    decreases |x|
  {
    ArticleMatchShape(x, w);
    if x != [] && ArticleMatch(x, w) == 0 {
      StripArticlesAllSpace(x[1..], IsWordChar(x[0]));
      AllSpaceConcat([x[0]], StripArticles(x[1..], IsWordChar(x[0])));
      AllSpaceConcat([x[0]], x[1..]);
      assert x == [x[0]] + x[1..];
    } else if x != [] {
      assert !IsSpace(StripArticles(x, w)[0]);
    }
  }

  lemma StripArticlesFront(x: string, w: bool)
    ensures FrontAgrees(StripArticles(x, w), x)
  {
    StripArticlesStart(x, w);
    if x != [] && !IsWordChar(x[0]) {
      StripArticlesStart(x[1..], false);
      StripArticlesAllSpace(x[1..], false);
    }
  }

  lemma AsStep(r: string)
    requires Tidy(r)
    requires r != [] ==> !IsSpace(r[0]) && r[0] != ','
    requires !(r != [] && r[0] == '.' && AllSpace(r[1..]))
    ensures Tidy("as " + r)
  {
    assert TidyAt("as " + r);
    assert ("as " + r)[1..] == "s " + r;
    assert TidyAt("s " + r);
    assert ("as " + r)[2..] == " " + r;
    if r != [] {
      assert (" " + r)[2..] == r[1..];
    }
    assert TidyAt(" " + r);
    Lift(TidyAt, "as ", r);
  }

  lemma {:induction false} StripArticlesTidy(s: string, w: bool)
    requires Tidy(s)
    ensures Tidy(StripArticles(s, w))
    decreases |s|
  {
    if s == [] {
      return;
    }
    var n := ArticleMatch(s, w);
    if n > 0 {
      assert StripArticles(s, w) == "as " + StripArticles(s[n..], false);
      ArticleMatchShape(s, w);
      TidySuffix(s, n);
      StripArticlesTidy(s[n..], false);
      StripArticlesFront(s[n..], false);
      ArticleBoundary(s, n, StripArticles(s[n..], false));
    } else {
      assert StripArticles(s, w) == [s[0]] + StripArticles(s[1..], IsWordChar(s[0]));
      TidySuffix(s, 1);
      StripArticlesTidy(s[1..], IsWordChar(s[0]));
      StripArticlesFront(s[1..], IsWordChar(s[0]));
      assert s == [s[0]] + s[1..];
      assert TidyAt(s[0..]);
      CopyKeepsTidy(s[0], StripArticles(s[1..], IsWordChar(s[0])), s[1..]);
    }
  }

  // Where an article was dropped, the input's layout before the rest carries over to `"as "` before the rewritten rest.
  lemma ArticleBoundary(s: string, n: nat, r: string)
    requires 2 <= n <= |s| && Tidy(s)
    requires IsSpace(s[n - 1]) && s[n - 2] != ','
    requires n < |s| ==> !IsSpace(s[n])
    requires FrontAgrees(r, s[n..]) && Tidy(r)
    ensures Tidy("as " + r)
  {
    var rest := s[n..];
    assert TidyAt(s[n - 2..]);
    assert TidyAt(s[n - 1..]);
    assert s[n - 1..] == [s[n - 1]] + rest;
    assert s[n - 2..] == [s[n - 2], s[n - 1]] + rest;
    if rest != [] {
      assert s[n - 1..][2..] == rest[1..];
    }
    AsStep(r);
  }

  // ---------------------------------------------------------------------------
  // Pass 5 only changes the case of letters.

  lemma {:induction false} LowerKeywordsCase(s: string, w: bool)
    ensures |LowerKeywords(s, w)| == |s|
    ensures forall i :: 0 <= i < |s| ==> Lower(LowerKeywords(s, w)[i]) == Lower(s[i])
    decreases |s|
  {
    if s == [] {
      return;
    }
    var k := KeywordMatch(s, w);
    if k != "" {
      var r := LowerKeywords(s[|k|..], true);
      LowerKeywordsCase(s[|k|..], true);
      assert LowerKeywords(s, w) == LowerStr(s[..|k|]) + r;
      forall i | 0 <= i < |s|
        ensures Lower(LowerKeywords(s, w)[i]) == Lower(s[i])
      {
        if i < |k| {
          assert LowerKeywords(s, w)[i] == Lower(s[i]);
        } else {
          assert LowerKeywords(s, w)[i] == r[i - |k|];
          assert s[|k|..][i - |k|] == s[i];
        }
      }
    } else {
      var r := LowerKeywords(s[1..], IsWordChar(s[0]));
      LowerKeywordsCase(s[1..], IsWordChar(s[0]));
      assert LowerKeywords(s, w) == [s[0]] + r;
      forall i | 0 <= i < |s|
        ensures Lower(LowerKeywords(s, w)[i]) == Lower(s[i])
      {
        if i > 0 {
          assert LowerKeywords(s, w)[i] == r[i - 1];
          assert s[1..][i - 1] == s[i];
        }
      }
    }
  }

  lemma SameLowerChar(x: char, y: char)
    requires Lower(x) == Lower(y)
    ensures IsSpace(x) <==> IsSpace(y)
    ensures x == ' ' <==> y == ' '
    ensures x == ',' <==> y == ','
    ensures x == '.' <==> y == '.'
  {
  }

  lemma SameLowerTidy(a: string, b: string)
    requires |a| == |b|
    requires forall i :: 0 <= i < |a| ==> Lower(a[i]) == Lower(b[i])
    requires Tidy(a)
    ensures Tidy(b)
  {
    forall i | 0 <= i < |b|
      ensures TidyAt(b[i..])
    {
      assert TidyAt(a[i..]);
      forall k | i <= k < |a| {
        SameLowerChar(a[k], b[k]);
      }
      if i + 2 <= |a| {
        assert AllSpace(a[i..][2..]) <==> AllSpace(b[i..][2..]) by {
          assert forall k :: 0 <= k < |a[i..][2..]| ==> a[i..][2..][k] == a[i + 2 + k];
          assert forall k :: 0 <= k < |b[i..][2..]| ==> b[i..][2..][k] == b[i + 2 + k];
        }
      }
    }
  }

  // ---------------------------------------------------------------------------
  // Pass 6: `if` and `whenever` become `when`.

  lemma ConditionWordShape(s: string, w: bool)
    ensures var n := ConditionWordMatch(s, w);
      n > 0 ==> IsWordChar(s[0]) && IsWordChar(s[n - 1]) && EndsWord(s, n)
  {
    var n := ConditionWordMatch(s, w);
    if n == 2 {
      assert s[0] == s[..2][0] && s[1] == s[..2][1];
    } else if n == 8 {
      assert s[0] == s[..8][0] && s[7] == s[..8][7];
    }
  }

  lemma {:induction false} UnifyStart(x: string, w: bool)
    ensures UnifyConditionWords(x, w) == [] <==> x == []
    ensures x != [] && !IsWordChar(x[0]) ==> UnifyConditionWords(x, w) == [x[0]] + UnifyConditionWords(x[1..], false)
    ensures x != [] && IsWordChar(x[0]) ==> IsWordChar(UnifyConditionWords(x, w)[0])
  {
    ConditionWordShape(x, w);
  }

  lemma {:induction false} UnifyAllSpace(x: string, w: bool)
    ensures AllSpace(UnifyConditionWords(x, w)) <==> AllSpace(x)
    decreases |x|
  {
    ConditionWordShape(x, w);
    if x != [] && ConditionWordMatch(x, w) == 0 {
      UnifyAllSpace(x[1..], IsWordChar(x[0]));
      AllSpaceConcat([x[0]], UnifyConditionWords(x[1..], IsWordChar(x[0])));
      AllSpaceConcat([x[0]], x[1..]);
      assert x == [x[0]] + x[1..];
    } else if x != [] {
      assert !IsSpace(UnifyConditionWords(x, w)[0]);
    }
  }

  lemma UnifyFront(x: string, w: bool)
    ensures FrontAgrees(UnifyConditionWords(x, w), x)
  {
    UnifyStart(x, w);
    if x != [] && !IsWordChar(x[0]) {
      UnifyStart(x[1..], false);
      UnifyAllSpace(x[1..], false);
    }
  }

  lemma WhenStep(c: char, r: string)
    requires IsWordChar(c) && TidyAt([c] + r) && Tidy(r)
    ensures Tidy("when" + r)
  {
    assert TidyAt("when" + r);
    assert ("when" + r)[1..] == "hen" + r;
    assert TidyAt("hen" + r);
    assert ("when" + r)[2..] == "en" + r;
    assert TidyAt("en" + r);
    assert ("when" + r)[3..] == "n" + r;
    assert TidyAt("n" + r);
    Lift(TidyAt, "when", r);
  }

  lemma {:induction false} UnifyTidy(s: string, w: bool)
    requires Tidy(s)
    ensures Tidy(UnifyConditionWords(s, w))
    decreases |s|
  {
    if s == [] {
      return;
    }
    var n := ConditionWordMatch(s, w);
    if n > 0 {
      assert UnifyConditionWords(s, w) == "when" + UnifyConditionWords(s[n..], true);
      ConditionWordShape(s, w);
      TidySuffix(s, n);
      UnifyTidy(s[n..], true);
      UnifyFront(s[n..], true);
      assert s[n - 1..] == [s[n - 1]] + s[n..];
      assert TidyAt(s[n - 1..]);
      CopyKeepsTidy(s[n - 1], UnifyConditionWords(s[n..], true), s[n..]);
      assert ([s[n - 1]] + UnifyConditionWords(s[n..], true))[0..] == [s[n - 1]] + UnifyConditionWords(s[n..], true);
      WhenStep(s[n - 1], UnifyConditionWords(s[n..], true));
    } else {
      assert UnifyConditionWords(s, w) == [s[0]] + UnifyConditionWords(s[1..], IsWordChar(s[0]));
      TidySuffix(s, 1);
      UnifyTidy(s[1..], IsWordChar(s[0]));
      UnifyFront(s[1..], IsWordChar(s[0]));
      assert s == [s[0]] + s[1..];
      assert TidyAt(s[0..]);
      CopyKeepsTidy(s[0], UnifyConditionWords(s[1..], IsWordChar(s[0])), s[1..]);
    }
  }

  // ---------------------------------------------------------------------------
  // Pass 7: `trim`.

  lemma TrimEndTidy(x: string)
    requires Tidy(x)
    ensures Tidy(TrimEnd(x))
  {
    var v := TrimEnd(x);
    TrimEndSlices(x);
    forall i | 0 <= i < |v|
      ensures TidyAt(v[i..])
    {
      var o := v[i..];
      assert TidyAt(x[i..]);
      assert forall k :: 0 <= k < |o| ==> o[k] == x[i + k];
    }
  }

  lemma TrimTidy(x: string)
    requires Tidy(x)
    ensures Tidy(Trim(x))
  {
    var u := TrimStart(x);
    TrimStartSlices(x);
    TidySuffix(x, |x| - |u|);
    TrimEndTidy(u);
  }

  // ---------------------------------------------------------------------------
  // The whole chain.

  // The layout of a normalised statement, spelled out position by position.
  predicate NormalLayout(r: string) {
    && (r != [] ==> !IsSpace(r[0]) && !IsSpace(r[|r| - 1]))
    && (forall i :: 0 <= i < |r| && IsSpace(r[i]) ==> r[i] == ' ')
    && (forall i :: 0 <= i < |r| - 1 && IsSpace(r[i]) ==> !IsSpace(r[i + 1]))
    && (forall i :: 0 <= i < |r| && r[i] == ',' ==>
          i == |r| - 1 || r[i + 1] == ' ' || (r[i + 1] == '.' && i + 2 == |r|))
    && (forall i :: 0 <= i < |r| - 1 && IsSpace(r[i]) && r[i + 1] == ',' ==> 0 < i && r[i - 1] == ',')
    && (|r| >= 2 && r[|r| - 1] == '.' ==> !IsSpace(r[|r| - 2]))
  }

  lemma TidyLayout(r: string)
    requires Tidy(r)
    requires r != [] ==> !IsSpace(r[0]) && !IsSpace(r[|r| - 1])
    ensures NormalLayout(r)
    ensures NoLineTerminator(r)
  {
    forall i | 0 <= i < |r|
      ensures IsSpace(r[i]) ==> r[i] == ' '
      ensures i < |r| - 1 && IsSpace(r[i]) ==> !IsSpace(r[i + 1])
      ensures r[i] == ',' ==> i == |r| - 1 || r[i + 1] == ' ' || (r[i + 1] == '.' && i + 2 == |r|)
    {
      assert TidyAt(r[i..]);
    }
    forall i | 0 <= i < |r| - 1 && IsSpace(r[i]) && r[i + 1] == ','
      ensures 0 < i && r[i - 1] == ','
    {
      assert TidyAt(r[i - 1..]);
    }
    if |r| >= 2 && r[|r| - 1] == '.' {
      assert TidyAt(r[|r| - 2..]);
    }
  }

  // `normalizeInput` leaves no white space at either end, only single plain
  // spaces inside (hence no line terminator), a space or the final period
  // (or nothing) after every comma, white space before a comma only right
  // after another comma, and no white space before a final period.
  lemma NormalizeLayoutHolds(input: string)
    ensures NormalLayout(Normalize(input))
    ensures NoLineTerminator(Normalize(input))
  {
    var s1 := CollapseWhitespace(input);
    var s2 := NormalizeCommas(s1);
    var s3 := TerminatePeriod(s2);
    var s4 := StripArticles(s3, false);
    var s5 := LowerKeywords(s4, false);
    var s6 := UnifyConditionWords(s5, false);
    assert Normalize(input) == Trim(s6);
    assert Tidy(s3) by {
      CollapseSpaced(input);
      NormalizeCommasTidy(s1);
      TerminatePeriodTidy(s2);
    }
    assert Tidy(s5) by {
      StripArticlesTidy(s3, false);
      LowerKeywordsCase(s4, false);
      SameLowerTidy(s4, s5);
    }
    assert Tidy(Trim(s6)) by {
      UnifyTidy(s5, false);
      TrimTidy(s6);
    }
    TidyLayout(Trim(s6));
  }

  // ---------------------------------------------------------------------------
  // Why `CommaAt` allows white space before a comma that follows a comma:
  // line 15 rewrites each comma of `",,"` on its own, so the first comma's
  // trailing space stays in front of the second one.

  lemma CommaStart(y: string)
    ensures TrimStart([','] + y) == [','] + y
  {
  }

  lemma LeadingComma(y: string)
    ensures NormalizeCommas([','] + y) == ", " + NormalizeCommas(TrimStart(y))
  {
    var s := [','] + y;
    CommaStart(y);
    assert s[1..] == y;
  }

  /** Two adjacent commas become `", , "`: a space stands right before the second comma. */
  lemma RepeatedCommas(y: string)
    ensures NormalizeCommas([','] + ([','] + y)) == ", " + (", " + NormalizeCommas(TrimStart(y)))
  {
    LeadingComma([','] + y);
    CommaStart(y);
    LeadingComma(y);
  }
}
