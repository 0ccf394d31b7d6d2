/// What the normaliser guarantees about whole words: the keyword pass
/// lower-cases every standalone keyword, and no standalone `if` or `whenever`,
/// in any case, survives the chain. "Standalone" is the regular expression's
/// `\b` on both sides; at index 0 the flag `afterWord` says whether a word
/// character precedes the text (see `Normalizer`).
module NormalizerWords {
  import opened Text
  import opened Normalizer
  import NormalizerLayout

  // A `\b` holds at index `i`, given that the next character is a word character.
  predicate BoundaryAt(s: string, i: nat, afterWord: bool)
    requires i <= |s|
  {
    if i == 0 then !afterWord else !IsWordChar(s[i - 1])
  }

  // `k` occurs at index `i` of `s` as a whole word, up to ASCII case.
  predicate WholeWordAt(s: string, i: nat, k: string, afterWord: bool) {
    i <= |s| && BoundaryAt(s, i, afterWord) && CiAt(s, i, k) && EndsWord(s, i + |k|)
  }

  // ---------------------------------------------------------------------------
  // The keyword list.

  lemma KeywordShape(k: string)
    requires k in Keywords
    ensures |k| > 0 && IsWordChar(k[0]) && k[0] != 'n' && IsWordChar(k[|k| - 1])
    ensures forall j :: 0 <= j < |k| && !IsWordChar(k[j]) ==> k == "must not" && j == 4
    ensures LowerStr(k) == k
  {
  }

  lemma {:induction false} FirstKeywordFinds(s: string, ks: seq<string>, k: string)
    requires k in ks && k != "" && CiAt(s, 0, k) && EndsWord(s, |k|)
    ensures FirstKeyword(s, ks) != ""
    decreases |ks|
  {
    if ks[0] != k {
      FirstKeywordFinds(s, ks[1..], k);
    }
  }

  // When two keywords match at the same index, the regular expression's choice is at least as long.
  lemma ChosenKeywordCovers(s: string, k: string)
    requires k in Keywords && CiAt(s, 0, k) && EndsWord(s, |k|)
    ensures var c := FirstKeyword(s, Keywords); c != "" && |k| <= |c|
  {
    FirstKeywordFinds(s, Keywords, k);
    var c := FirstKeyword(s, Keywords);
    KeywordShape(k);
    KeywordShape(c);
    if |k| > |c| {
      CiAtChar(s, 0, k, |c|);
    }
  }

  // ---------------------------------------------------------------------------
  // The keyword pass.

  lemma WholeWordShift(s: string, n: nat, i: nat, k: string, w: bool, w': bool)
    requires 0 < n <= i && n <= |s|
    requires w' == IsWordChar(s[n - 1])
    ensures WholeWordAt(s, i, k, w) <==> WholeWordAt(s[n..], i - n, k, w')
  {
    if i <= |s| && i + |k| <= |s| {
      assert s[n..][i - n..i - n + |k|] == s[i..i + |k|];
    }
    if i > n && i <= |s| {
      assert s[n..][i - n - 1] == s[i - 1];
    }
    if i + |k| < |s| {
      assert s[n..][i - n + |k|] == s[i + |k|];
    }
  }

  lemma SliceAfter(e: string, r: string, i: nat, m: nat)
    requires |e| <= i && i + m <= |e| + |r|
    ensures (e + r)[i..i + m] == r[i - |e|..i - |e| + m]
  {
  }

  // Inside a keyword match no other keyword starts a word: only `must not` holds a word start, at `not`.
  lemma NoKeywordInsideMatch(s: string, c: string, i: nat, k: string, w: bool)
    requires c in Keywords && CiAt(s, 0, c) && 0 < i < |c|
    requires k in Keywords
    ensures !WholeWordAt(s, i, k, w)
  {
    KeywordShape(c);
    KeywordShape(k);
    if WholeWordAt(s, i, k, w) {
      CiAtChar(s, 0, c, i - 1);
      assert c == "must not" && i == 5;
      CiAtChar(s, 0, c, 5);
    }
  }

  lemma MatchedKeywordLowered(s: string, c: string, k: string, r: string)
    requires CiAt(s, 0, c) && CiAt(s, 0, k) && |k| <= |c|
    requires |k| <= |c| + |r|
    ensures (LowerStr(s[..|c|]) + r)[0..|k|] == k
  {
    var out := LowerStr(s[..|c|]) + r;
    assert LowerStr(s[..|k|]) == k;
    assert forall j :: 0 <= j < |k| ==> out[j] == Lower(s[j]);
  }

  lemma {:induction false} LowerKeywordsLowers(s: string, w: bool)
    ensures |LowerKeywords(s, w)| == |s|
    ensures forall i: nat, k :: k in Keywords && WholeWordAt(s, i, k, w) ==>
      LowerKeywords(s, w)[i..i + |k|] == k
    decreases |s|
  {
    NormalizerLayout.LowerKeywordsCase(s, w);
    if s == [] {
      forall i: nat, k | k in Keywords && WholeWordAt(s, i, k, w)
        ensures false
      {
        KeywordShape(k);
      }
      return;
    }
    var c := KeywordMatch(s, w);
    if c != "" {
      assert LowerKeywords(s, w) == LowerStr(s[..|c|]) + LowerKeywords(s[|c|..], true);
      LowerKeywordsLowers(s[|c|..], true);
      KeywordCase(s, w, c, LowerKeywords(s[|c|..], true));
    } else {
      assert LowerKeywords(s, w) == [s[0]] + LowerKeywords(s[1..], IsWordChar(s[0]));
      LowerKeywordsLowers(s[1..], IsWordChar(s[0]));
      CopyCase(s, w, LowerKeywords(s[1..], IsWordChar(s[0])));
    }
  }

  lemma FirstPositionLowered(s: string, w: bool, k: string, r: string)
    requires k in Keywords && WholeWordAt(s, 0, k, w)
    requires KeywordMatch(s, w) != "" && |r| == |s| - |KeywordMatch(s, w)|
    ensures (LowerStr(s[..|KeywordMatch(s, w)|]) + r)[0..|k|] == k
  {
    var c := KeywordMatch(s, w);
    ChosenKeywordCovers(s, k);
    MatchedKeywordLowered(s, c, k, r);
  }

  lemma KeywordCase(s: string, w: bool, c: string, r: string)
    requires c != "" && c == KeywordMatch(s, w)
    requires |r| == |s| - |c|
    requires forall i: nat, k :: k in Keywords && WholeWordAt(s[|c|..], i, k, true) ==> r[i..i + |k|] == k
    ensures forall i: nat, k :: k in Keywords && WholeWordAt(s, i, k, w) ==>
      (LowerStr(s[..|c|]) + r)[i..i + |k|] == k
  {
    var n := |c|;
    var out := LowerStr(s[..n]) + r;
    KeywordShape(c);
    CiAtChar(s, 0, c, n - 1);
    forall i: nat, k | k in Keywords && WholeWordAt(s, i, k, w)
      ensures out[i..i + |k|] == k
    {
      if i == 0 {
        FirstPositionLowered(s, w, k, r);
      } else if i < n {
        NoKeywordInsideMatch(s, c, i, k, w);
      } else {
        ShiftedKeywordLowered(s, LowerStr(s[..n]), r, w, true, i, k);
      }
    }
  }

  lemma CopyCase(s: string, w: bool, r: string)
    requires s != [] && KeywordMatch(s, w) == ""
    requires |r| == |s| - 1
    requires forall i: nat, k :: k in Keywords && WholeWordAt(s[1..], i, k, IsWordChar(s[0])) ==> r[i..i + |k|] == k
    ensures forall i: nat, k :: k in Keywords && WholeWordAt(s, i, k, w) ==> ([s[0]] + r)[i..i + |k|] == k
  {
    var out := [s[0]] + r;
    forall i: nat, k | k in Keywords && WholeWordAt(s, i, k, w)
      ensures out[i..i + |k|] == k
    {
      if i == 0 {
        KeywordShape(k);
        FirstKeywordFinds(s, Keywords, k);
      } else {
        ShiftedKeywordLowered(s, [s[0]], r, w, IsWordChar(s[0]), i, k);
      }
    }
  }

  // A keyword after the part `e` the pass has emitted for the front of `s` is lowered by the rest of the pass.
  lemma ShiftedKeywordLowered(s: string, e: string, r: string, w: bool, w': bool, i: nat, k: string)
    requires 0 < |e| <= i && |e| <= |s| && |r| == |s| - |e|
    requires w' == IsWordChar(s[|e| - 1])
    requires k in Keywords && WholeWordAt(s, i, k, w)
    requires forall i: nat, k :: k in Keywords && WholeWordAt(s[|e|..], i, k, w') ==> r[i..i + |k|] == k
    ensures (e + r)[i..i + |k|] == k
  {
    WholeWordShift(s, |e|, i, k, w, w');
    assert r[i - |e|..i - |e| + |k|] == k;
    SliceAfter(e, r, i, |k|);
  }

  lemma SameLowerWholeWord(a: string, b: string, i: nat, k: string, w: bool)
    requires |a| == |b|
    requires forall j :: 0 <= j < |a| ==> Lower(a[j]) == Lower(b[j])
    ensures WholeWordAt(a, i, k, w) <==> WholeWordAt(b, i, k, w)
  {
    if i + |k| <= |a| {
      assert LowerStr(a[i..i + |k|]) == LowerStr(b[i..i + |k|]);
    }
    if 0 < i <= |a| {
      assert Lower(a[i - 1]) == Lower(b[i - 1]);
    }
    if i + |k| < |a| {
      assert Lower(a[i + |k|]) == Lower(b[i + |k|]);
    }
  }

  // Lines 18-21: in the result of the keyword pass, every standalone keyword, whatever case it had, is in lower case.
  lemma KeywordsLowerCased(s: string)
    ensures forall i: nat, k :: k in Keywords && WholeWordAt(LowerKeywords(s, false), i, k, false) ==>
      LowerKeywords(s, false)[i..i + |k|] == k
  {
    var r := LowerKeywords(s, false);
    LowerKeywordsLowers(s, false);
    NormalizerLayout.LowerKeywordsCase(s, false);
    forall i: nat, k | k in Keywords && WholeWordAt(r, i, k, false)
      ensures r[i..i + |k|] == k
    {
      SameLowerWholeWord(r, s, i, k, false);
    }
  }

  // ---------------------------------------------------------------------------
  // The condition-word pass.

  // Every standalone `if` and `whenever` is written in lower case.
  predicate CondWordsExact(s: string, w: bool) {
    && (forall i: nat :: i <= |s| && WholeWordAt(s, i, "if", w) ==> s[i..i + 2] == "if")
    && (forall i: nat :: i <= |s| && WholeWordAt(s, i, "whenever", w) ==> s[i..i + 8] == "whenever")
  }

  // No standalone `if` or `whenever`, in any case.
  predicate NoCondWords(s: string, w: bool) {
    forall i: nat :: i <= |s| ==> !WholeWordAt(s, i, "if", w) && !WholeWordAt(s, i, "whenever", w)
  }

  lemma CondWordsExactShift(s: string, n: nat, w: bool, w': bool)
    requires 0 < n <= |s| && w' == IsWordChar(s[n - 1])
    requires CondWordsExact(s, w)
    ensures CondWordsExact(s[n..], w')
  {
    forall i: nat | WholeWordAt(s[n..], i, "if", w')
      ensures s[n..][i..i + 2] == "if"
    {
      WholeWordShift(s, n, n + i, "if", w, w');
      assert s[n..][i..i + 2] == s[n + i..n + i + 2];
    }
    forall i: nat | WholeWordAt(s[n..], i, "whenever", w')
      ensures s[n..][i..i + 8] == "whenever"
    {
      WholeWordShift(s, n, n + i, "whenever", w, w');
      assert s[n..][i..i + 8] == s[n + i..n + i + 8];
    }
  }

  lemma NoCondWordsShift(out: string, n: nat, w: bool, w': bool)
    requires 0 < n <= |out| && w' == IsWordChar(out[n - 1])
    requires NoCondWords(out[n..], w')
    ensures forall i: nat :: n <= i ==> !WholeWordAt(out, i, "if", w) && !WholeWordAt(out, i, "whenever", w)
  {
    forall i: nat | n <= i
      ensures !WholeWordAt(out, i, "if", w) && !WholeWordAt(out, i, "whenever", w)
    {
      WholeWordShift(out, n, i, "if", w, w');
      WholeWordShift(out, n, i, "whenever", w, w');
    }
  }

  lemma CiAtCons(s: string, k: string)
    requires s != [] && k != []
    ensures CiAt(s, 0, k) <==> Lower(s[0]) == k[0] && CiAt(s[1..], 0, k[1..])
  {
    if |k| <= |s| {
      assert s[1..][0..|k| - 1] == s[1..|k|];
      assert LowerStr(s[0..|k|]) == [Lower(s[0])] + LowerStr(s[1..|k|]);
    }
  }

  // After a word character, the condition-word pass copies the rest of the word, so a whole word read at the start of its output was there in its input.
  lemma {:induction false} UnifyKeepsWord(x: string, k: string)
    requires forall j :: 0 <= j < |k| ==> IsWordChar(k[j])
    requires CiAt(UnifyConditionWords(x, true), 0, k) && EndsWord(UnifyConditionWords(x, true), |k|)
    ensures CiAt(x, 0, k) && EndsWord(x, |k|)
    decreases |k|
  {
    var out := UnifyConditionWords(x, true);
    NormalizerLayout.UnifyStart(x, true);
    if k == [] {
      assert LowerStr(x[0..0]) == [];
    } else {
      CiAtChar(out, 0, k, 0);
      assert IsWordChar(x[0]);
      assert out == [x[0]] + UnifyConditionWords(x[1..], true);
      CiAtCons(out, k);
      assert out[1..] == UnifyConditionWords(x[1..], true);
      UnifyKeepsWord(x[1..], k[1..]);
      CiAtCons(x, k);
    }
  }

  lemma WhenIsNotCondWord(r: string, w: bool)
    requires r != [] ==> !IsWordChar(r[0])
    ensures !WholeWordAt("when" + r, 0, "if", w) && !WholeWordAt("when" + r, 0, "whenever", w)
  {
    var out := "when" + r;
    if WholeWordAt(out, 0, "if", w) {
      CiAtChar(out, 0, "if", 0);
    }
    if WholeWordAt(out, 0, "whenever", w) {
      CiAtChar(out, 0, "whenever", 4);
    }
  }

  lemma {:induction false} UnifyRemovesCondWords(s: string, w: bool)
    requires CondWordsExact(s, w)
    ensures NoCondWords(UnifyConditionWords(s, w), w)
    decreases |s|
  {
    var out := UnifyConditionWords(s, w);
    if s == [] {
      assert forall i: nat, k: string :: !CiAt([], i, k + "i");
      return;
    }
    var n := ConditionWordMatch(s, w);
    if n > 0 {
      var r := UnifyConditionWords(s[n..], true);
      assert out == "when" + r;
      NormalizerLayout.ConditionWordShape(s, w);
      CondWordsExactShift(s, n, w, true);
      UnifyRemovesCondWords(s[n..], true);
      NormalizerLayout.UnifyStart(s[n..], true);
      WhenIsNotCondWord(r, w);
      assert out[..4] == "when";
      NoCondWordsShift(out, 4, w, true);
    } else {
      var r := UnifyConditionWords(s[1..], IsWordChar(s[0]));
      assert out == [s[0]] + r;
      CondWordsExactShift(s, 1, w, IsWordChar(s[0]));
      UnifyRemovesCondWords(s[1..], IsWordChar(s[0]));
      NoCondWordsShift(out, 1, w, IsWordChar(s[0]));
      CopiedNotCondWord(s, w, "if");
      CopiedNotCondWord(s, w, "whenever");
    }
  }

  lemma CopiedNotCondWord(s: string, w: bool, k: string)
    requires s != [] && ConditionWordMatch(s, w) == 0 && CondWordsExact(s, w)
    requires k == "if" || k == "whenever"
    ensures !WholeWordAt([s[0]] + UnifyConditionWords(s[1..], IsWordChar(s[0])), 0, k, w)
  {
    var out := [s[0]] + UnifyConditionWords(s[1..], IsWordChar(s[0]));
    if WholeWordAt(out, 0, k, w) {
      CiAtChar(out, 0, k, 0);
      assert IsWordChar(s[0]);
      CiAtCons(out, k);
      assert out[1..] == UnifyConditionWords(s[1..], true);
      UnifyKeepsWord(s[1..], k[1..]);
      CiAtCons(s, k);
      assert WholeWordAt(s, 0, k, w);
    }
  }

  // ---------------------------------------------------------------------------
  // Trim and the whole chain.

  lemma WholeWordInPrefix(u: string, m: nat, j: nat, k: string, w: bool)
    requires m <= |u| && AllSpace(u[m..])
    requires WholeWordAt(u[..m], j, k, w)
    ensures WholeWordAt(u, j, k, w)
  {
    assert u[..m][j..j + |k|] == u[j..j + |k|];
    if j > 0 {
      assert u[..m][j - 1] == u[j - 1];
    }
    if j + |k| < |u| {
      if j + |k| == m {
        assert IsSpace(u[m..][0]);
      }
    }
  }

  lemma NoCondWordsTrim(x: string)
    requires NoCondWords(x, false)
    ensures NoCondWords(Trim(x), false)
  {
    var u := TrimStart(x);
    var a := |x| - |u|;
    TrimStartSlices(x);
    assert NoCondWords(u, false) by {
      if a > 0 {
        assert IsSpace(x[..a][a - 1]);
        forall i: nat | i <= |u|
          ensures !WholeWordAt(u, i, "if", false) && !WholeWordAt(u, i, "whenever", false)
        {
          WholeWordShift(x, a, a + i, "if", false, false);
          WholeWordShift(x, a, a + i, "whenever", false, false);
        }
      }
    }
    var v := TrimEnd(u);
    TrimEndSlices(u);
    forall i: nat | i <= |v|
      ensures !WholeWordAt(v, i, "if", false) && !WholeWordAt(v, i, "whenever", false)
    {
      if WholeWordAt(v, i, "if", false) {
        WholeWordInPrefix(u, |v|, i, "if", false);
      }
      if WholeWordAt(v, i, "whenever", false) {
        WholeWordInPrefix(u, |v|, i, "whenever", false);
      }
    }
  }

  lemma CondWordsAreKeywords(r: string)
    requires forall i: nat, k :: k in Keywords && WholeWordAt(r, i, k, false) ==> r[i..i + |k|] == k
    ensures CondWordsExact(r, false)
  {
    assert Keywords[6] == "if" && Keywords[7] == "whenever";
  }

  lemma LastPassesRemoveCondWords(s4: string)
    ensures NoCondWords(Trim(UnifyConditionWords(LowerKeywords(s4, false), false)), false)
  {
    var s5 := LowerKeywords(s4, false);
    KeywordsLowerCased(s4);
    CondWordsAreKeywords(s5);
    UnifyRemovesCondWords(s5, false);
    NoCondWordsTrim(UnifyConditionWords(s5, false));
  }

  // Lines 18-23: the normalised text holds no standalone `if` or `whenever`, in any case; they have become `when`.
  lemma NormalizeHasNoCondWords(input: string)
    ensures NoCondWords(Normalize(input), false)
  {
    var s4 := StripArticles(TerminatePeriod(NormalizeCommas(CollapseWhitespace(input))), false);
    LastPassesRemoveCondWords(s4);
  }
}
