/// What `parseRequirement` (src/parser/parser.ts) promises: which inputs fail
/// and with which error, the shape of a successful atom, the fact that the
/// modality always comes out as `must`, and that text after a second
/// `when`/`then` separator is never read.
module ParserProps {
  import opened Wrappers
  import opened Text
  import opened Normalizer
  import opened Errors
  import opened Types
  import opened Parser
  import NormalizerLayout

  // ---------------------------------------------------------------- split

  /** Putting the separators back between the pieces of `split` gives the input back. */
  lemma {:induction false} SplitRoundTrip(s: string, p: nat, w: string)
    requires w != [] && p <= |s|
    decreases |s| - p
    ensures |SplitFrom(s, p, w)| == |SeparatorsFrom(s, p, w)| + 1
    ensures Interleave(SplitFrom(s, p, w), SeparatorsFrom(s, p, w)) == s[p..]
  {
    match FindSep(s, p, w)
    case None =>
    case Some(sp) =>
      SplitStep(s, p, w, sp);
      SplitRoundTrip(s, sp.end, w);
      ThreeSlices(s, p, sp.start, sp.end);
  }

  lemma SplitStep(s: string, p: nat, w: string, sp: Span)
    requires w != [] && p <= |s| && FindSep(s, p, w) == Some(sp)
    ensures SplitFrom(s, p, w) == [s[p..sp.start]] + SplitFrom(s, sp.end, w)
    ensures SeparatorsFrom(s, p, w) == [s[sp.start..sp.end]] + SeparatorsFrom(s, sp.end, w)
    ensures SplitFrom(s, p, w)[1..] == SplitFrom(s, sp.end, w)
    ensures SeparatorsFrom(s, p, w)[1..] == SeparatorsFrom(s, sp.end, w)
  {
  }

  lemma ThreeSlices(s: string, a: nat, b: nat, c: nat)
    requires a <= b <= c <= |s|
    ensures s[a..] == s[a..b] + s[b..c] + s[c..]
  {
  }

  lemma {:induction false} SpaceRunPrefix(s: string, m: nat, i: nat)
    requires m <= |s|
    decreases |s| - i
    ensures SpaceRun(s[..m], i) <= SpaceRun(s, i)
    ensures i + SpaceRun(s[..m], i) < m ==> SpaceRun(s[..m], i) == SpaceRun(s, i)
    ensures i + SpaceRun(s, i) <= m ==> SpaceRun(s[..m], i) == SpaceRun(s, i)
  {
    if i < m && IsSpace(s[i]) {
      SpaceRunPrefix(s, m, i + 1);
    }
  }

  lemma CiAtPrefix(s: string, m: nat, i: nat, w: string)
    requires m <= |s|
    ensures CiAt(s[..m], i, w) <==> i + |w| <= m && CiAt(s, i, w)
  {
    if i + |w| <= m {
      assert s[..m][i..i + |w|] == s[i..i + |w|];
    }
  }

  // A separator found in a prefix is a separator of the whole text.
  lemma SepInPrefix(s: string, m: nat, q: nat, w: string)
    requires w != [] && m <= |s| && SepAt(s[..m], q, w).Some?
    ensures SepAt(s, q, w).Some?
  {
    var t := s[..m];
    var r1 := SpaceRun(t, q);
    var i := q + r1 + |w|;
    SepAtParts(t, q, w);
    RunEndsInside(s, m, q);
    CiAtPrefix(s, m, q + r1, w);
    RunShorterInPrefix(s, m, i);
    SepAtFromParts(s, q, w, r1, SpaceRun(s, i));
  }

  // A separator that ends inside a prefix is found there, with the same end.
  lemma SepEndsInPrefix(s: string, m: nat, q: nat, w: string)
    requires w != [] && m <= |s| && SepAt(s, q, w).Some? && SepAt(s, q, w).value <= m
    ensures SepAt(s[..m], q, w) == SepAt(s, q, w)
  {
    var r1 := SpaceRun(s, q);
    var i := q + r1 + |w|;
    SepAtParts(s, q, w);
    RunFitsInPrefix(s, m, q);
    CiAtPrefix(s, m, q + r1, w);
    RunFitsInPrefix(s, m, i);
    SepAtFromParts(s[..m], q, w, r1, SpaceRun(s, i));
  }

  lemma SepAtParts(x: string, q: nat, w: string)
    requires w != [] && SepAt(x, q, w).Some?
    ensures var r1 := SpaceRun(x, q);
      && r1 > 0 && CiAt(x, q + r1, w) && SpaceRun(x, q + r1 + |w|) > 0
      && SepAt(x, q, w).value == q + r1 + |w| + SpaceRun(x, q + r1 + |w|)
  {
  }

  lemma SepAtFromParts(x: string, q: nat, w: string, r1: nat, r2: nat)
    requires w != [] && r1 > 0 && r2 > 0
    requires SpaceRun(x, q) == r1 && CiAt(x, q + r1, w) && SpaceRun(x, q + r1 + |w|) == r2
    ensures SepAt(x, q, w) == Some(q + r1 + |w| + r2)
  {
  }

  lemma RunShorterInPrefix(s: string, m: nat, i: nat)
    requires m <= |s|
    ensures SpaceRun(s[..m], i) <= SpaceRun(s, i)
  {
    SpaceRunPrefix(s, m, i);
  }

  lemma RunEndsInside(s: string, m: nat, i: nat)
    requires m <= |s| && i + SpaceRun(s[..m], i) < m
    ensures SpaceRun(s[..m], i) == SpaceRun(s, i)
  {
    SpaceRunPrefix(s, m, i);
  }

  lemma RunFitsInPrefix(s: string, m: nat, i: nat)
    requires m <= |s| && i + SpaceRun(s, i) <= m
    ensures SpaceRun(s[..m], i) == SpaceRun(s, i)
  {
    SpaceRunPrefix(s, m, i);
  }

  lemma {:induction false} FindSepInPrefix(s: string, m: nat, from: nat, w: string)
    requires w != [] && from <= m <= |s|
    requires FindSep(s, from, w).Some? && FindSep(s, from, w).value.end <= m
    decreases m - from
    ensures FindSep(s[..m], from, w) == FindSep(s, from, w)
  {
    var a := FindSep(s, from, w).value;
    if from == a.start {
      SepEndsInPrefix(s, m, from, w);
    } else {
      assert SepAt(s, from, w).None?;
      if SepAt(s[..m], from, w).Some? {
        SepInPrefix(s, m, from, w);
      }
      FindSepInPrefix(s, m, from + 1, w);
    }
  }

  lemma {:induction false} NoSepInPrefix(s: string, m: nat, from: nat, w: string)
    requires w != [] && from <= m <= |s|
    requires FindSep(s, from, w).None? || FindSep(s, from, w).value.start >= m
    decreases m - from
    ensures FindSep(s[..m], from, w).None?
  {
    if from < m {
      assert SepAt(s, from, w).None?;
      if SepAt(s[..m], from, w).Some? {
        SepInPrefix(s, m, from, w);
      }
      NoSepInPrefix(s, m, from + 1, w);
    }
  }

  lemma FindSepPrefix(s: string, m: nat, from: nat, w: string)
    requires w != [] && from <= m <= |s|
    ensures FindSep(s, from, w).Some? && FindSep(s, from, w).value.end <= m ==>
      FindSep(s[..m], from, w) == FindSep(s, from, w)
    ensures FindSep(s, from, w).None? || FindSep(s, from, w).value.start >= m ==>
      FindSep(s[..m], from, w).None?
  {
    if FindSep(s, from, w).Some? && FindSep(s, from, w).value.end <= m {
      FindSepInPrefix(s, m, from, w);
    }
    if FindSep(s, from, w).None? || FindSep(s, from, w).value.start >= m {
      NoSepInPrefix(s, m, from, w);
    }
  }

  /** `s` cut at the start of its second separator, or `s` when it has fewer than two. */
  function CutAtSecond(s: string, w: string): (t: string)
    requires w != []
    ensures |t| <= |s| && t == s[..|t|]
  {
    match FindSep(s, 0, w)
    case None => s
    case Some(a) =>
      match FindSep(s, a.end, w)
      case None => s
      case Some(b) => s[..b.start]
  }

  /** Cutting at the second separator keeps exactly the first two pieces of the split. */
  lemma SplitOfCut(s: string, w: string)
    requires w != []
    ensures |Split(CutAtSecond(s, w), w)| == if |Split(s, w)| >= 2 then 2 else 1
    ensures Split(CutAtSecond(s, w), w) == Split(s, w)[..|Split(CutAtSecond(s, w), w)|]
  {
    match FindSep(s, 0, w)
    case None =>
    case Some(a) =>
      match FindSep(s, a.end, w)
      case None =>
        assert SplitFrom(s, a.end, w) == [s[a.end..]];
        assert |Split(s, w)| == 2;
      case Some(b) =>
        var t := s[..b.start];
        FindSepPrefix(s, b.start, 0, w);
        FindSepPrefix(s, b.start, a.end, w);
        assert Split(t, w) == [t[..a.start]] + SplitFrom(t, a.end, w);
        assert t[..a.start] == s[..a.start] && t[a.end..] == s[a.end..b.start];
        assert Split(s, w) == [s[..a.start]] + ([s[a.end..b.start]] + SplitFrom(s, b.end, w));
  }

  lemma NoSepInCut(s: string, m: nat, w: string)
    requires w != [] && m <= |s| && FindSep(s, 0, w).None?
    ensures FindSep(s[..m], 0, w).None?
  {
    FindSepPrefix(s, m, 0, w);
  }

  // Lines 50-53: when the rest has a `when` separator, text from its second `when` separator on is never read.
  lemma LaterWhenSegmentsIgnored(r: string)
    ensures SplitClauses(CutAtSecond(r, "when")) == SplitClauses(r)
  {
    SplitOfCut(r, "when");
  }

  // Lines 55-57: when the rest has no `when` separator, text from its second `then` separator on is never read.
  lemma LaterThenSegmentsIgnored(r: string)
    requires FindSep(r, 0, "when").None?
    ensures SplitClauses(CutAtSecond(r, "then")) == SplitClauses(r)
  {
    var t := CutAtSecond(r, "then");
    SplitOfCut(r, "then");
    NoSepInCut(r, |t|, "when");
    SplitHead(t, "when");
    SplitHead(r, "when");
  }

  /** Where the action ends: the first `when` separator, else the first `then` separator, else the end. */
  function ActionEnd(r: string): (n: nat)
    ensures n <= |r|
  {
    match FindSep(r, 0, "when")
    case Some(a) => a.start
    case None =>
      match FindSep(r, 0, "then")
      case Some(b) => b.start
      case None => |r|
  }

  lemma SplitHead(s: string, w: string)
    requires w != []
    ensures |Split(s, w)| > 1 <==> FindSep(s, 0, w).Some?
    ensures Split(s, w)[0] == s[..if FindSep(s, 0, w).Some? then FindSep(s, 0, w).value.start else |s|]
  {
  }

  // Lines 50-58: the action is the trimmed text before the leftmost `when` separator or, when there is none,
  // before the leftmost `then` separator; a condition exists exactly when there is a `when` separator.
  lemma ActionBeforeFirstSeparator(r: string)
    ensures SplitClauses(r).action == Trim(r[..ActionEnd(r)])
    ensures SplitClauses(r).condition.Some? <==> FindSep(r, 0, "when").Some?
  {
    SplitHead(r, "when");
    SplitHead(r, "then");
  }

  // ---------------------------------------------------------------- parse

  /** The text the canonical expression is matched against: the normal form without its final period, trimmed. */
  function Statement(input: string): string
    requires !AllSpace(input) && EndsWithPeriod(Normalize(Trim(input)))
  {
    var n := Normalize(Trim(input));
    Trim(n[..|n| - 1])
  }

  lemma ParseOfStatement(input: string)
    requires !AllSpace(input) && EndsWithPeriod(Normalize(Trim(input)))
    ensures Parse(input) == ParseStatement(Statement(input))
  {
  }

  lemma ParseOfBlank(input: string)
    requires AllSpace(input)
    ensures Parse(input) == Failure(NormalizationError(Some(EmptyInputDetail)))
  {
  }

  lemma ParseWithoutPeriod(input: string)
    requires !AllSpace(input) && !EndsWithPeriod(Normalize(Trim(input)))
    ensures Parse(input) == Failure(NormalizationError(Some(NoPeriodDetail)))
  {
  }

  lemma DetailsDiffer()
    ensures EmptyInputDetail != NoPeriodDetail
  {
    assert EmptyInputDetail[2] != NoPeriodDetail[2];
  }

  // Lines 12-14: a blank input, and only a blank input, fails with the empty-input NormalizationError.
  lemma ParseBlank(input: string)
    ensures Parse(input) == Failure(NormalizationError(Some(EmptyInputDetail))) <==> AllSpace(input)
  {
    if AllSpace(input) {
      ParseOfBlank(input);
    } else {
      NotBlankParse(input);
    }
  }

  lemma NotBlankParse(input: string)
    requires !AllSpace(input)
    ensures Parse(input) != Failure(NormalizationError(Some(EmptyInputDetail)))
  {
    if EndsWithPeriod(Normalize(Trim(input))) {
      ParseOfStatement(input);
    } else {
      ParseWithoutPeriod(input);
      DetailsDiffer();
    }
  }

  // Lines 16-20: a non-blank input whose normal form does not end in a period, and only such an input,
  // fails with the missing-period NormalizationError.
  lemma ParseNeedsPeriod(input: string)
    ensures Parse(input) == Failure(NormalizationError(Some(NoPeriodDetail))) <==>
      !AllSpace(input) && !EndsWithPeriod(Normalize(Trim(input)))
  {
    if AllSpace(input) {
      BlankParseHasNoPeriodError(input);
    } else if EndsWithPeriod(Normalize(Trim(input))) {
      ParseOfStatement(input);
    } else {
      ParseWithoutPeriod(input);
    }
  }

  lemma BlankParseHasNoPeriodError(input: string)
    requires AllSpace(input)
    ensures Parse(input) != Failure(NormalizationError(Some(NoPeriodDetail)))
  {
    ParseOfBlank(input);
    DetailsDiffer();
  }

  lemma StatementMissingActor(st: string)
    ensures ParseStatement(st) == Failure(MissingActorError) <==> MatchCanonical(st).None?
  {
  }

  // Lines 22-29: an input that gets past both period checks fails with MissingActorError exactly
  // when its statement does not match the canonical expression.
  lemma ParseMissingActor(input: string)
    requires !AllSpace(input) && EndsWithPeriod(Normalize(Trim(input)))
    ensures Parse(input) == Failure(MissingActorError) <==> MatchCanonical(Statement(input)).None?
  {
    ParseOfStatement(input);
    StatementMissingActor(Statement(input));
  }

  // Lines 11-73: the parser fails only with a NormalizationError or a MissingActorError. The modality
  // checks of lines 38-44 never fire, and neither does the action check of lines 60-62, because the
  // statement is trimmed (line 22) and so its rest starts and ends with a non-space character.
  lemma ParseErrorKinds(input: string)
    requires Parse(input).Failure?
    ensures Parse(input).error.NormalizationError? || Parse(input).error == MissingActorError
    ensures Parse(input).error != MissingActionError
  {
    if !AllSpace(input) && EndsWithPeriod(Normalize(Trim(input))) {
      ParseOfStatement(input);
      TrimmedStatementHasAction(Statement(input));
    }
  }

  // Lines 50-62: a rest that starts with a non-space character leaves a non-empty action.
  lemma ActionOfRest(r: string)
    requires r != [] && !IsSpace(r[0])
    ensures SplitClauses(r).action != []
  {
    ActionBeforeFirstSeparator(r);
    ActionEndAfterWord(r, 1);
    TrimKeepsStart(r[..ActionEnd(r)], 1);
  }

  // Line 33: the rest capture `(.+)$` runs to the end of the statement.
  lemma CapturedRestEndsStatement(s: string)
    requires MatchCanonical(s).Some?
    ensures var t := MatchCanonical(s).value.tail; s != [] && t[|t| - 1] == s[|s| - 1]
  {
    var p := CanonicalPrefix(s).value;
    TailLast(s, ModalityEnd(s, p.modalityStart).value);
  }

  // Line 33: the rest captured from a statement that ends in a non-space character is not blank.
  lemma CapturedRestNotBlank(st: string)
    requires st != [] && !IsSpace(st[|st| - 1]) && MatchCanonical(st).Some?
    ensures var rest := Trim(MatchCanonical(st).value.tail); rest != [] && !IsSpace(rest[0])
  {
    CapturedRestEndsStatement(st);
  }

  // Lines 22-62: a statement without trailing white space never fails with MissingActionError.
  lemma TrimmedStatementHasAction(st: string)
    requires st != [] ==> !IsSpace(st[|st| - 1])
    ensures ParseStatement(st) != Failure(MissingActionError)
  {
    if MatchCanonical(st).Some? {
      CapturedRestNotBlank(st);
      ActionOfRest(Trim(MatchCanonical(st).value.tail));
    }
  }

  lemma TrimKeepsNoLineTerminator(s: string)
    requires NoLineTerminator(s)
    ensures NoLineTerminator(Trim(s))
  {
    var t := TrimStart(s);
    TrimStartSlices(s);
    assert NoLineTerminator(t) by {
      forall j | 0 <= j < |t| ensures !IsLineTerminator(t[j]) {
        assert t[j] == s[|s| - |t| + j];
      }
    }
    var u := TrimEnd(t);
    TrimEndSlices(t);
    forall j | 0 <= j < |u| ensures !IsLineTerminator(u[j]) {
      assert u[j] == t[j];
    }
  }

  // The statement has no line terminator, because the normal form has none.
  lemma StatementHasNoLineTerminator(input: string)
    requires !AllSpace(input) && EndsWithPeriod(Normalize(Trim(input)))
    ensures NoLineTerminator(Statement(input))
  {
    var n := Normalize(Trim(input));
    NormalizerLayout.NormalizeLayoutHolds(Trim(input));
    var m := n[..|n| - 1];
    forall j | 0 <= j < |m| ensures !IsLineTerminator(m[j]) {
      assert m[j] == n[j];
    }
    TrimKeepsNoLineTerminator(m);
  }

  // A match at index `i` is a match at the start of the text from `i` on.
  lemma CiAtSuffix(s: string, i: nat, w: string)
    requires i <= |s|
    ensures CiAt(s, i, w) <==> CiAt(s[i..], 0, w)
  {
    if i + |w| <= |s| {
      assert s[i..][0..|w|] == s[i..i + |w|];
    }
  }

  lemma CiAtMustNot(s: string, mp: nat)
    requires CiAt(s, mp, "must not")
    ensures CiAt(s, mp, "must") && IsSpace(s[mp + 4]) && CiAt(s, mp + 5, "not")
  {
    forall k | 0 <= k < 4 ensures Lower(s[mp + k]) == "must"[k] {
      assert "must not"[k] == "must"[k];
    }
    assert Lower(s[mp + 4]) == "must not"[4];
    forall k | 0 <= k < 3 ensures Lower(s[mp + 5 + k]) == "not"[k] {
      assert Lower(s[mp + (5 + k)]) == "must not"[5 + k];
    }
  }

  // A case-insensitive match of a word without white space covers no white space.
  lemma CiAtNoSpace(s: string, i: nat, w: string)
    requires CiAt(s, i, w) && forall j :: 0 <= j < |w| ==> !IsSpace(w[j])
    ensures forall j :: i <= j < i + |w| ==> !IsSpace(s[j])
  {
    forall j | i <= j < i + |w| ensures !IsSpace(s[j]) {
      assert Lower(s[i + (j - i)]) == w[j - i];
    }
  }

  lemma NotHasNoSpace()
    ensures forall j :: 0 <= j < |"not"| ==> !IsSpace("not"[j])
  {
  }

  lemma MustNotTail(s: string, mp: nat)
    requires NoLineTerminator(s) && CiAt(s, mp, "must not")
    ensures CiAt(s, mp, "must") && Tail(s, mp + 4) == Some(s[mp + 5..])
  {
    CiAtMustNot(s, mp);
    NotHasNoSpace();
    CiAtNoSpace(s, mp + 5, "not");
    assert SpaceRun(s, mp + 5) == 0;
    assert SpaceRun(s, mp + 4) == 1;
    var t := s[mp + 5..];
    forall j | 0 <= j < |t| ensures !IsLineTerminator(t[j]) {
      assert t[j] == s[mp + 5 + j];
    }
  }

  // On a text without line terminators the `must` alternative always wins: when the modality is written
  // `must not`, the capture is `must` and the rest starts with the `not`.
  lemma MustAlternativeWins(s: string)
    requires NoLineTerminator(s) && MatchCanonical(s).Some?
    ensures LowerStr(MatchCanonical(s).value.modality) == "must"
    ensures CiAt(s, CanonicalPrefix(s).value.modalityStart, "must not") ==>
      MatchCanonical(s).value.tail == s[CanonicalPrefix(s).value.modalityStart + 5..]
  {
    MustModalityWins(s, CanonicalPrefix(s).value);
  }

  lemma MustModalityWins(s: string, p: Prefix)
    requires p.actorStart <= p.actorEnd <= p.modalityStart <= |s|
    requires NoLineTerminator(s) && MatchModality(s, p).Some?
    ensures LowerStr(MatchModality(s, p).value.modality) == "must"
    ensures CiAt(s, p.modalityStart, "must not") ==> MatchModality(s, p).value.tail == s[p.modalityStart + 5..]
  {
    var mp := p.modalityStart;
    if CiAt(s, mp, "must not") {
      MustNotTail(s, mp);
    } else {
      OnlyMustMatches(s, p);
    }
    MustAlternativeTaken(s, p);
  }

  lemma OnlyMustMatches(s: string, p: Prefix)
    requires p.actorStart <= p.actorEnd <= p.modalityStart <= |s|
    requires MatchModality(s, p).Some? && !CiAt(s, p.modalityStart, "must not")
    ensures CiAt(s, p.modalityStart, "must") && Tail(s, p.modalityStart + 4).Some?
  {
    assert ModalityEnd(s, p.modalityStart).Some?;
  }

  lemma MustAlternativeTaken(s: string, p: Prefix)
    requires p.actorStart <= p.actorEnd <= p.modalityStart <= |s|
    requires CiAt(s, p.modalityStart, "must") && Tail(s, p.modalityStart + 4).Some?
    ensures MatchModality(s, p).Some?
    ensures LowerStr(MatchModality(s, p).value.modality) == "must"
    ensures MatchModality(s, p).value.tail == Tail(s, p.modalityStart + 4).value
  {
    var mp := p.modalityStart;
    assert ModalityEnd(s, mp) == Some(mp + 4);
    CiAtSlice(s, mp, "must");
  }

  // Lines 24 and 32: every successful parse has modality `must`.
  lemma ParseModalityIsMust(input: string)
    requires Parse(input).Success?
    ensures Parse(input).value.modality == Some("must")
  {
    ParseBlank(input);
    ParseNeedsPeriod(input);
    ParseOfStatement(input);
    var st := Statement(input);
    StatementHasNoLineTerminator(input);
    MustAlternativeWins(st);
    StatementModality(st);
  }

  // The modality of a parsed statement is the lower-cased modality capture, and its action comes from the rest.
  lemma StatementModality(st: string)
    requires ParseStatement(st).Success?
    ensures MatchCanonical(st).Some?
    ensures ParseStatement(st).value.modality == Some(LowerStr(MatchCanonical(st).value.modality))
    ensures ParseStatement(st).value.action == Some(SplitClauses(Trim(MatchCanonical(st).value.tail)).action)
  {
    CaptureFields(MatchCanonical(st).value);
  }

  lemma CaptureFields(m: Canonical)
    requires m.actor != [] && forall j :: 0 <= j < |m.actor| ==> IsActorChar(m.actor[j])
    requires LowerStr(m.modality) == "must" || LowerStr(m.modality) == "must not"
    requires FromCapture(m).Success?
    ensures FromCapture(m).value.modality == Some(LowerStr(m.modality))
    ensures FromCapture(m).value.action == Some(SplitClauses(Trim(m.tail)).action)
  {
  }

  lemma SepStartsWithSpace(s: string, q: nat, w: string)
    requires w != [] && SepAt(s, q, w).Some?
    ensures q < |s| && IsSpace(s[q])
  {
  }

  // A separator cannot start inside a leading run of non-white-space characters.
  lemma ActionEndAfterWord(r: string, k: nat)
    requires k <= |r| && forall j :: 0 <= j < k ==> !IsSpace(r[j])
    ensures k <= ActionEnd(r)
  {
    FindSepSpec(r, 0, "when");
    FindSepSpec(r, 0, "then");
    match FindSep(r, 0, "when")
    case Some(a) => SepStartsWithSpace(r, a.start, "when");
    case None =>
      match FindSep(r, 0, "then")
      case Some(b) => SepStartsWithSpace(r, b.start, "then");
      case None =>
  }

  // Trimming keeps a leading run of non-white-space characters.
  lemma TrimKeepsStart(a: string, k: nat)
    requires 0 < k <= |a| && forall j :: 0 <= j < k ==> !IsSpace(a[j])
    ensures |Trim(a)| >= k && Trim(a)[..k] == a[..k]
  {
    assert TrimStart(a) == a by {
      assert !IsSpace(a[0]);
    }
    TrimEndKeeps(a, k);
  }

  // A rest starting with `not` gives an action starting with that `not`.
  lemma NotSurvivesClauses(r: string)
    requires CiAt(r, 0, "not")
    ensures CiAt(SplitClauses(r).action, 0, "not")
  {
    NotHasNoSpace();
    CiAtNoSpace(r, 0, "not");
    ActionEndAfterWord(r, 3);
    ActionBeforeFirstSeparator(r);
    var a := r[..ActionEnd(r)];
    TrimKeepsStart(a, 3);
    assert Trim(a)[..3] == r[..3];
  }

  lemma NotSurvivesTrim(x: string)
    requires CiAt(x, 0, "not")
    ensures CiAt(Trim(x), 0, "not")
  {
    NotHasNoSpace();
    CiAtNoSpace(x, 0, "not");
    TrimKeepsStart(x, 3);
  }

  lemma TailOfMustNot(st: string)
    requires NoLineTerminator(st) && MatchCanonical(st).Some?
    requires CiAt(st, CanonicalPrefix(st).value.modalityStart, "must not")
    ensures CiAt(Trim(MatchCanonical(st).value.tail), 0, "not")
  {
    var mp := CanonicalPrefix(st).value.modalityStart;
    var tail := st[mp + 5..];
    assert MatchCanonical(st).value.tail == tail by {
      MustAlternativeWins(st);
    }
    assert CiAt(tail, 0, "not") by {
      CiAtMustNot(st, mp);
      CiAtSuffix(st, mp + 5, "not");
    }
    NotSurvivesTrim(tail);
  }

  // Lines 24 and 32: when the modality is written `must not`, the atom says `must` and its action starts with that `not`.
  lemma ParseMustNot(input: string)
    requires Parse(input).Success?
    requires !AllSpace(input) && EndsWithPeriod(Normalize(Trim(input)))
    requires CanonicalPrefix(Statement(input)).Some?
    requires CiAt(Statement(input), CanonicalPrefix(Statement(input)).value.modalityStart, "must not")
    ensures Parse(input).value.modality == Some("must")
    ensures CiAt(Parse(input).value.action.value, 0, "not")
  {
    ParseModalityIsMust(input);
    ParseOfStatement(input);
    var st := Statement(input);
    StatementHasNoLineTerminator(input);
    StatementModality(st);
    TailOfMustNot(st);
    NotSurvivesClauses(Trim(MatchCanonical(st).value.tail));
  }
}
