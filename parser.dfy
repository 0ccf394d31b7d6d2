/// `parseRequirement` (src/parser/parser.ts): normalise one statement, match
/// it against the canonical shape `As <actor>, I must|must not <rest>` and
/// cut the rest into action, condition and result. A thrown error is a
/// `Failure`.
module Parser {
  import opened Wrappers
  import opened Text
  import opened Normalizer
  import opened Errors
  import opened Types

  const EmptyInputDetail: string := "\U{274C} Input is empty."
  const NoPeriodDetail: string := "\U{274C} DSL statement must end with a single period."

  // The argument line 43 hands to InvalidModalityError.
  function InvalidModalityDetail(modality: string): string {
    "\U{274C} Invalid modality: " + modality + ". Expected \"must\" or \"must not\"."
  }

  /** `[A-Za-z0-9_-]`, the characters of an actor name. */
  predicate IsActorChar(c: char) {
    ('a' <= c <= 'z') || ('A' <= c <= 'Z') || ('0' <= c <= '9') || c == '_' || c == '-'
  }

  /** The length of the run of actor characters starting at index `i`. */
  function ActorRun(s: string, i: nat): (n: nat)
    decreases |s| - i
    ensures n > 0 ==> i + n <= |s|
    ensures forall j :: i <= j < i + n ==> IsActorChar(s[j])
    ensures i + n < |s| ==> !IsActorChar(s[i + n])
  {
    if i < |s| && IsActorChar(s[i]) then 1 + ActorRun(s, i + 1) else 0
  }

  // `\s+(.+)$` can match from index `i` with `k` characters of white space, the capture being all that follows.
  predicate TailFits(s: string, i: nat, k: nat) {
    1 <= k && i + k < |s| && AllSpace(s[i..i + k]) && NoLineTerminator(s[i + k..])
  }

  lemma TailFitsWithinRun(s: string, i: nat, k: nat)
    requires TailFits(s, i, k)
    ensures k <= SpaceRun(s, i)
  {
    SpaceInSlice(s, i, i + k, i + SpaceRun(s, i));
  }

  /** The capture of `\s+(.+)$` at index `i`: the greedy `\s+` gives back white space only as far as the capture needs. */
  function Tail(s: string, i: nat): (t: Option<string>)
    requires i <= |s|
    ensures t.Some? ==> 0 < |t.value| < |s| - i && t.value == s[|s| - |t.value|..]
  {
    var r := SpaceRun(s, i);
    if r > 0 && i + r < |s| && NoLineTerminator(s[i + r..]) then Some(s[i + r..])
    else if r >= 2 && i + r == |s| && !IsLineTerminator(s[|s| - 1]) then Some(s[|s| - 1..])
    else None
  }

  /** The capture runs to the end of the text. */
  lemma TailLast(s: string, i: nat)
    requires i <= |s| && Tail(s, i).Some?
    ensures var t := Tail(s, i).value; s != [] && t[|t| - 1] == s[|s| - 1]
  {
    var t := Tail(s, i).value;
    assert t[|t| - 1] == s[|s| - |t|..][|t| - 1];
  }

  // The capture is what is left after the most white space `\s+` can take while `(.+)$` still matches, and there is
  // no capture when no amount of white space lets it match.
  lemma TailSpec(s: string, i: nat)
    requires i <= |s|
    ensures Tail(s, i).Some? ==> TailFits(s, i, |s| - |Tail(s, i).value| - i)
    ensures Tail(s, i).Some? ==> forall k: nat :: |s| - |Tail(s, i).value| - i < k ==> !TailFits(s, i, k)
    ensures Tail(s, i).None? ==> forall k: nat :: !TailFits(s, i, k)
  {
    TailCases(s, i);
  }

  lemma TailCases(s: string, i: nat)
    requires i <= |s|
    ensures var r := SpaceRun(s, i);
      && (r > 0 && i + r < |s| && NoLineTerminator(s[i + r..]) ==> TailFits(s, i, r))
      && (r >= 2 && i + r == |s| && !IsLineTerminator(s[|s| - 1]) ==> TailFits(s, i, r - 1))
      && forall k: nat :: TailFits(s, i, k) ==>
           (r > 0 && i + r < |s| && NoLineTerminator(s[i + r..]) && k <= r)
           || (r >= 2 && i + r == |s| && !IsLineTerminator(s[|s| - 1]) && k <= r - 1)
  {
    var r := SpaceRun(s, i);
    SpaceRunSpaces(s, i);
    forall k: nat | TailFits(s, i, k)
      ensures (r > 0 && i + r < |s| && NoLineTerminator(s[i + r..]) && k <= r)
           || (r >= 2 && i + r == |s| && !IsLineTerminator(s[|s| - 1]) && k <= r - 1)
    {
      TailFitsWithinRun(s, i, k);
      if i + r < |s| {
        var t, u := s[i + r..], s[i + k..];
        forall j | 0 <= j < |t| ensures !IsLineTerminator(t[j]) {
          assert t[j] == u[j + r - k];
        }
      } else {
        assert s[|s| - 1] == s[i + k..][|s| - 1 - i - k];
      }
    }
  }

  /** The positions the prefix `^As\s+([A-Za-z0-9_-]+),\s+I\s+` fixes: where the actor starts and ends and where the modality starts. */
  datatype Prefix = Prefix(actorStart: nat, actorEnd: nat, modalityStart: nat)

  function CanonicalPrefix(s: string): (p: Option<Prefix>)
    ensures p.Some? ==> 2 < p.value.actorStart < p.value.actorEnd < p.value.modalityStart <= |s|
    ensures p.Some? ==> forall j :: p.value.actorStart <= j < p.value.actorEnd ==> IsActorChar(s[j])
  {
    if !CiAt(s, 0, "as") then None
    else
      var w1 := SpaceRun(s, 2);
      var a := ActorRun(s, 2 + w1);
      var c := 2 + w1 + a;
      if w1 == 0 || a == 0 || c >= |s| || s[c] != ',' then None
      else
        var w2 := SpaceRun(s, c + 1);
        var ip := c + 1 + w2;
        if w2 == 0 || !CiAt(s, ip, "i") then None
        else
          var w3 := SpaceRun(s, ip + 1);
          if w3 == 0 then None else Some(Prefix(2 + w1, c, ip + 1 + w3))
  }

  /** What the canonical regular expression captures: actor, modality and the rest, as written. */
  datatype Canonical = Canonical(actor: string, modality: string, tail: string)

  // Line 24: the whole canonical expression.
  function MatchCanonical(s: string): (m: Option<Canonical>)
    ensures m.Some? ==> m.value.actor != [] && forall j :: 0 <= j < |m.value.actor| ==> IsActorChar(m.value.actor[j])
    ensures m.Some? ==> LowerStr(m.value.modality) == "must" || LowerStr(m.value.modality) == "must not"
    ensures m.Some? ==> m.value.tail != []
  {
    match CanonicalPrefix(s)
    case None => None
    case Some(p) => MatchModality(s, p)
  }

  // The alternatives `must` and `must not` are tried in that order, each followed by `\s+(.+)$`.
  function MatchModality(s: string, p: Prefix): (m: Option<Canonical>)
    requires p.actorStart <= p.actorEnd <= p.modalityStart <= |s|
    ensures m.Some? ==> m.value.actor == s[p.actorStart..p.actorEnd]
    ensures m.Some? ==> LowerStr(m.value.modality) == "must" || LowerStr(m.value.modality) == "must not"
    ensures m.Some? ==> m.value.tail != []
  {
    match ModalityEnd(s, p.modalityStart)
    case None => None
    case Some(e) => Some(Canonical(s[p.actorStart..p.actorEnd], s[p.modalityStart..e], Tail(s, e).value))
  }

  /** Where the modality alternative that wins at index `mp` ends. */
  function ModalityEnd(s: string, mp: nat): (e: Option<nat>)
    requires mp <= |s|
    ensures e.Some? ==> e.value <= |s| && Tail(s, e.value).Some?
    ensures e.Some? ==> (e.value == mp + 4 && CiAt(s, mp, "must")) || (e.value == mp + 8 && CiAt(s, mp, "must not"))
    ensures e.Some? ==> LowerStr(s[mp..e.value]) == "must" || LowerStr(s[mp..e.value]) == "must not"
  {
    if CiAt(s, mp, "must") && Tail(s, mp + 4).Some? then
      CiAtSlice(s, mp, "must");
      Some(mp + 4)
    else if CiAt(s, mp, "must not") && Tail(s, mp + 8).Some? then
      CiAtSlice(s, mp, "must not");
      Some(mp + 8)
    else None
  }

  /** A match of `/\s+w\s+/i` at index `q` (`w` lower case), and where it ends. */
  function SepAt(s: string, q: nat, w: string): (e: Option<nat>)
    requires w != []
    ensures e.Some? ==> q < e.value <= |s|
  {
    var r1 := SpaceRun(s, q);
    var r2 := SpaceRun(s, q + r1 + |w|);
    if r1 > 0 && CiAt(s, q + r1, w) && r2 > 0 then Some(q + r1 + |w| + r2) else None
  }

  datatype Span = Span(start: nat, end: nat)

  /** The leftmost separator at or after index `from`. */
  function FindSep(s: string, from: nat, w: string): (r: Option<Span>)
    requires w != []
    decreases |s| - from
    ensures r.Some? ==> from <= r.value.start < r.value.end <= |s|
  {
    if from >= |s| then None
    else match SepAt(s, from, w)
      case Some(e) => Some(Span(from, e))
      case None => FindSep(s, from + 1, w)
  }

  // The separator found is the leftmost one at or after `from`, and none is found only when there is none.
  lemma FindSepSpec(s: string, from: nat, w: string)
    requires w != []
    ensures FindSep(s, from, w).Some? ==> SepAt(s, FindSep(s, from, w).value.start, w) == Some(FindSep(s, from, w).value.end)
    ensures FindSep(s, from, w).Some? ==> forall q :: from <= q < FindSep(s, from, w).value.start ==> SepAt(s, q, w).None?
    ensures FindSep(s, from, w).None? ==> forall q :: from <= q ==> SepAt(s, q, w).None?
  {
    forall q | from <= q && (FindSep(s, from, w).None? || q <= FindSep(s, from, w).value.start)
      ensures SepAt(s, q, w) == if FindSep(s, from, w).Some? && q == FindSep(s, from, w).value.start
        then Some(FindSep(s, from, w).value.end) else None
    {
      FindSepAt(s, from, q, w);
    }
  }

  lemma {:induction false} FindSepAt(s: string, from: nat, q: nat, w: string)
    requires w != [] && from <= q
    requires FindSep(s, from, w).None? || q <= FindSep(s, from, w).value.start
    decreases q - from
    ensures SepAt(s, q, w) == if FindSep(s, from, w).Some? && q == FindSep(s, from, w).value.start
      then Some(FindSep(s, from, w).value.end) else None
  {
    if from >= |s| {
      assert SpaceRun(s, q) == 0;
    } else if from < q {
      assert SepAt(s, from, w).None?;
      FindSepAt(s, from + 1, q, w);
    }
  }

  /** `s.slice(p).split(/\s+w\s+/i)`. */
  function SplitFrom(s: string, p: nat, w: string): (r: seq<string>)
    requires w != [] && p <= |s|
    decreases |s| - p
    ensures |r| >= 1
  {
    match FindSep(s, p, w)
    case None => [s[p..]]
    case Some(sp) => [s[p..sp.start]] + SplitFrom(s, sp.end, w)
  }

  function Split(s: string, w: string): (r: seq<string>)
    requires w != []
    ensures |r| >= 1
  {
    SplitFrom(s, 0, w)
  }

  /** The separators `SplitFrom` cut out, in order. */
  function SeparatorsFrom(s: string, p: nat, w: string): seq<string>
    requires w != [] && p <= |s|
    decreases |s| - p
  {
    match FindSep(s, p, w)
    case None => []
    case Some(sp) => [s[sp.start..sp.end]] + SeparatorsFrom(s, sp.end, w)
  }

  /** The pieces with the separators put back between them. */
  function Interleave(pieces: seq<string>, seps: seq<string>): string
    requires |pieces| == |seps| + 1
  {
    if seps == [] then pieces[0] else pieces[0] + seps[0] + Interleave(pieces[1..], seps[1..])
  }

  datatype Clauses = Clauses(action: string, condition: Option<string>, result: Option<string>)

  // Lines 50-58: split the rest on `when`; the part after the first `when` is split on `then`
  // into condition and result, and otherwise the whole rest is split on `then` into action and result.
  function SplitClauses(remaining: string): Clauses {
    var condSplit := Split(remaining, "when");
    if |condSplit| > 1 then
      var rest := Split(condSplit[1], "then");
      Clauses(Trim(condSplit[0]), Some(Trim(rest[0])), if |rest| > 1 then Some(Trim(rest[1])) else None)
    else
      var resSplit := Split(remaining, "then");
      Clauses(Trim(resSplit[0]), None, if |resSplit| > 1 then Some(Trim(resSplit[1])) else None)
  }

  // `...(x ? { x } : {})`: a field is set only when its value is a non-empty string.
  function Nonblank(x: Option<string>): (r: Option<string>)
    ensures r.Some? <==> Truthy(x)
    ensures r.Some? ==> r == x
  {
    if Truthy(x) then x else None
  }

  predicate EndsWithPeriod(n: string) {
    |n| > 0 && n[|n| - 1] == '.'
  }

  // Lines 11-22: reject a blank input and a normalised text without a final period.
  function Parse(input: string): (r: Result<RequirementAtom, RequirementError>)
    ensures r.Success? ==> ParsedAtom(r.value)
  {
    if Trim(input) == [] then Failure(NormalizationError(Some(EmptyInputDetail)))
    else
      var n := Normalize(Trim(input));
      if !EndsWithPeriod(n) then Failure(NormalizationError(Some(NoPeriodDetail)))
      else ParseStatement(Trim(n[..|n| - 1]))
  }

  /** The shape of every atom the parser produces. */
  predicate ParsedAtom(a: RequirementAtom) {
    && a.actor.Some? && a.actor.value != []
    && (forall j :: 0 <= j < |a.actor.value| ==> IsActorChar(a.actor.value[j]) && !('A' <= a.actor.value[j] <= 'Z'))
    && (a.modality == Some("must") || a.modality == Some("must not"))
    && Truthy(a.action) && !IsSpace(a.action.value[0])
    && (a.condition.Some? ==> Truthy(a.condition))
    && (a.result.Some? ==> Truthy(a.result))
    && a.raw.None?
  }

  // Lines 24-29: match the canonical shape; no match is a MissingActorError.
  function ParseStatement(st: string): (r: Result<RequirementAtom, RequirementError>)
    ensures r.Success? ==> ParsedAtom(r.value)
    ensures r.Failure? ==> r.error == MissingActorError || r.error == MissingActionError
  {
    match MatchCanonical(st)
    case None => Failure(MissingActorError)
    case Some(m) => FromCapture(m)
  }

  // Lines 31-72: lower-case the captures, run the field checks, split the rest into clauses and build the atom.
  function FromCapture(m: Canonical): (r: Result<RequirementAtom, RequirementError>)
    requires m.actor != [] && forall j :: 0 <= j < |m.actor| ==> IsActorChar(m.actor[j])
    requires LowerStr(m.modality) == "must" || LowerStr(m.modality) == "must not"
    ensures r.Success? ==> ParsedAtom(r.value)
    ensures r.Failure? ==> r.error == MissingActorError || r.error == MissingActionError
  {
    var actor := LowerStr(m.actor);
    var modality := LowerStr(m.modality);
    var remaining := Trim(m.tail);
    if actor == [] then Failure(MissingActorError)
    else if modality == [] then Failure(MissingModalityError)
    else if modality != "must" && modality != "must not" then
      Failure(InvalidModalityError(InvalidModalityDetail(modality)))
    else
      var c := SplitClauses(remaining);
      if c.action == [] then Failure(MissingActionError)
      else Success(RequirementAtom(Some(actor), Some(modality), Some(c.action), Nonblank(c.condition), Nonblank(c.result), None))
  }
}
