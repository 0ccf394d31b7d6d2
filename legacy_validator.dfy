/// The older `validateRequirement` (src/validator/validator.ts): plain-text
/// findings for missing fields, a few atomicity heuristics and two semantic
/// checks, pushed in a fixed order.
module LegacyValidator {
  import opened Wrappers
  import opened Text
  import opened Types
  import StructureRule

  /** The eight messages the validator can push, in push order. */
  datatype Message =
    | ActorRequired | ModalityRequired | ActionRequired | MultipleThen
    | MultipleResultActions | CommaSeparatedResults | ProhibitionWithResult | ConditionWithoutModality

  /** The text pushed for each message. */
  function MessageText(m: Message): string {
    match m
    case ActorRequired => "actor is required."
    case ModalityRequired => "modality is required."
    case ActionRequired => "action is required."
    case MultipleThen => "Requirement is not atomic: multiple THEN clauses detected."
    case MultipleResultActions => "Requirement is not atomic: multiple result actions detected."
    case CommaSeparatedResults => "Requirement may contain multiple result actions (comma-separated)."
    case ProhibitionWithResult => "A prohibition ('must not') should not define a result clause."
    case ConditionWithoutModality => "Condition provided but modality missing."
  }

  /** The `errors` array of the result, as strings. */
  function MessageTexts(errors: seq<Message>): (texts: seq<string>)
    ensures |texts| == |errors|
    ensures forall i :: 0 <= i < |errors| ==> texts[i] == MessageText(errors[i])
  {
    seq(|errors|, i requires 0 <= i < |errors| => MessageText(errors[i]))
  }

  datatype LegacyResult = LegacyResult(valid: bool, errors: seq<Message>)

  /** `/\bthen\b/i` matches at index `i`. */
  predicate ThenAt(s: string, i: nat) {
    && CiAt(s, i, "then")
    && (i == 0 || !IsWordChar(s[i - 1]))
    && EndsWord(s, i + 4)
  }

  /** How many matches `s.match(/\bthen\b/gi)` collects from index `i` on: after a match the search resumes at its end. */
  function ThenMatches(s: string, i: nat): nat
    decreases |s| - i
  {
    if i >= |s| then 0
    else if ThenAt(s, i) then 1 + ThenMatches(s, i + 4)
    else ThenMatches(s, i + 1)
  }

  /** The number of indices at or after `i` where a standalone `then` starts, in any case. */
  function ThenOccurrences(s: string, i: nat): nat
    decreases |s| - i
  {
    if i >= |s| then 0
    else (if ThenAt(s, i) then 1 else 0) + ThenOccurrences(s, i + 1)
  }

  /** The three characters after the start of a match are letters, so no match starts among them. */
  lemma NoThenInsideThen(s: string, i: nat, k: nat)
    requires ThenAt(s, i) && 1 <= k <= 3
    ensures !ThenAt(s, i + k)
  {
    var l := LowerStr(s[i..i + 4]);
    assert l[k - 1] == "then"[k - 1];
    assert IsWordChar(Lower(s[i..i + 4][k - 1]));
    assert s[i + k - 1] == s[i..i + 4][k - 1];
  }

  lemma {:induction false} ThenOccurrencesSkip(s: string, i: nat)
    requires ThenAt(s, i)
    ensures ThenOccurrences(s, i) == 1 + ThenOccurrences(s, i + 4)
  {
    NoThenInsideThen(s, i, 1);
    NoThenInsideThen(s, i, 2);
    NoThenInsideThen(s, i, 3);
    assert ThenOccurrences(s, i + 1) == ThenOccurrences(s, i + 2);
    assert ThenOccurrences(s, i + 2) == ThenOccurrences(s, i + 3);
    if i + 4 <= |s| {
      assert ThenOccurrences(s, i + 3) == ThenOccurrences(s, i + 4);
    }
  }

  /** The global match misses no occurrence: matches of `\bthen\b` never overlap. */
  lemma {:induction false} ThenMatchesCountsOccurrences(s: string, i: nat)
    ensures ThenMatches(s, i) == ThenOccurrences(s, i)
    decreases |s| - i
  {
    if i < |s| {
      if ThenAt(s, i) {
        ThenOccurrencesSkip(s, i);
        ThenMatchesCountsOccurrences(s, i + 4);
      } else {
        ThenMatchesCountsOccurrences(s, i + 1);
      }
    }
  }

  /** `w` occurs in `s` at index `i`. */
  predicate OccursAt(s: string, i: nat, w: string) {
    i + |w| <= |s| && s[i..i + |w|] == w
  }

  /** `s.includes(w)`. */
  predicate Includes(s: string, w: string) {
    exists i: nat :: i <= |s| && OccursAt(s, i, w)
  }

  /** `s.split(",").length`: one piece more than there are commas. */
  function CommaPieces(s: string): (n: nat)
    ensures n >= 1
  {
    if s == [] then 1 else (if s[0] == ',' then 1 else 0) + CommaPieces(s[1..])
  }

  lemma {:induction false} CommaPiecesCountsCommas(s: string)
    ensures CommaPieces(s) > 1 <==> ',' in s
  {
    if s != [] {
      CommaPiecesCountsCommas(s[1..]);
      assert s == [s[0]] + s[1..];
    }
  }

  /** `errors.push(message)` when a check fires. */
  function Push(errors: seq<Message>, fires: bool, message: Message): seq<Message> {
    if fires then errors + [message] else errors
  }

  lemma InPush(errors: seq<Message>, fires: bool, message: Message, x: Message)
    ensures x in Push(errors, fires, message) <==> x in errors || (fires && x == message)
    ensures Push(errors, fires, message) == [] <==> errors == [] && !fires
    ensures |Push(errors, fires, message)| <= |errors| + 1
  {
  }

  /** Line 66: the modality is exactly `"must not"`. */
  predicate Prohibits(atom: RequirementAtom) {
    atom.modality == Some("must not")
  }

  /** Which of the eight checks of lines 28-76 fire, in push order. */
  datatype Checks = Checks(
    actor: bool, modality: bool, action: bool, thenTwice: bool,
    andInResult: bool, comma: bool, prohibition: bool, condition: bool)

  /** The list after the eight checks, given which of them fire. */
  function PushAll(c: Checks): seq<Message> {
    PushEight(c.actor, c.modality, c.action, c.thenTwice, c.andInResult, c.comma, c.prohibition, c.condition)
  }

  function PushEight(actor: bool, modality: bool, action: bool, thenTwice: bool, andInResult: bool, comma: bool, prohibition: bool, condition: bool): seq<Message> {
    var e0 := Push([], actor, ActorRequired);
    var e1 := Push(e0, modality, ModalityRequired);
    var e2 := Push(e1, action, ActionRequired);
    var e3 := Push(e2, thenTwice, MultipleThen);
    var e4 := Push(e3, andInResult, MultipleResultActions);
    var e5 := Push(e4, comma, CommaSeparatedResults);
    var e6 := Push(e5, prohibition, ProhibitionWithResult);
    Push(e6, condition, ConditionWithoutModality)
  }

  lemma PushEightMembers(actor: bool, modality: bool, action: bool, thenTwice: bool, andInResult: bool, comma: bool, prohibition: bool, condition: bool, x: Message)
    ensures x in PushEight(actor, modality, action, thenTwice, andInResult, comma, prohibition, condition) <==>
      || (actor && x == ActorRequired) || (modality && x == ModalityRequired) || (action && x == ActionRequired)
      || (thenTwice && x == MultipleThen) || (andInResult && x == MultipleResultActions) || (comma && x == CommaSeparatedResults)
      || (prohibition && x == ProhibitionWithResult) || (condition && x == ConditionWithoutModality)
    ensures PushEight(actor, modality, action, thenTwice, andInResult, comma, prohibition, condition) == [] <==>
      !(actor || modality || action || thenTwice || andInResult || comma || prohibition || condition)
    ensures |PushEight(actor, modality, action, thenTwice, andInResult, comma, prohibition, condition)| <= 8
  {
    var e0 := Push([], actor, ActorRequired);
    var e1 := Push(e0, modality, ModalityRequired);
    var e2 := Push(e1, action, ActionRequired);
    var e3 := Push(e2, thenTwice, MultipleThen);
    var e4 := Push(e3, andInResult, MultipleResultActions);
    var e5 := Push(e4, comma, CommaSeparatedResults);
    var e6 := Push(e5, prohibition, ProhibitionWithResult);
    InPush([], actor, ActorRequired, x);
    InPush(e0, modality, ModalityRequired, x);
    InPush(e1, action, ActionRequired, x);
    InPush(e2, thenTwice, MultipleThen, x);
    InPush(e3, andInResult, MultipleResultActions, x);
    InPush(e4, comma, CommaSeparatedResults, x);
    InPush(e5, prohibition, ProhibitionWithResult, x);
    InPush(e6, condition, ConditionWithoutModality, x);
  }

  /** Eight pushes in a row, one per check, build `PushAll`. */
  lemma PushSteps(c: Checks, e0: seq<Message>, e1: seq<Message>, e2: seq<Message>, e3: seq<Message>,
                  e4: seq<Message>, e5: seq<Message>, e6: seq<Message>, e7: seq<Message>)
    requires e0 == Push([], c.actor, ActorRequired)
    requires e1 == Push(e0, c.modality, ModalityRequired)
    requires e2 == Push(e1, c.action, ActionRequired)
    requires e3 == Push(e2, c.thenTwice, MultipleThen)
    requires e4 == Push(e3, c.andInResult, MultipleResultActions)
    requires e5 == Push(e4, c.comma, CommaSeparatedResults)
    requires e6 == Push(e5, c.prohibition, ProhibitionWithResult)
    requires e7 == Push(e6, c.condition, ConditionWithoutModality)
    ensures e7 == PushAll(c)
  {
  }

  /** A message is in the list exactly when the check that pushes it fires; the list is empty exactly when none fires. */
  lemma PushAllMembers(c: Checks, x: Message)
    ensures x in PushAll(c) <==>
      || (c.actor && x == ActorRequired) || (c.modality && x == ModalityRequired) || (c.action && x == ActionRequired)
      || (c.thenTwice && x == MultipleThen) || (c.andInResult && x == MultipleResultActions) || (c.comma && x == CommaSeparatedResults)
      || (c.prohibition && x == ProhibitionWithResult) || (c.condition && x == ConditionWithoutModality)
    ensures PushAll(c) == [] <==>
      !(c.actor || c.modality || c.action || c.thenTwice || c.andInResult || c.comma || c.prohibition || c.condition)
    ensures |PushAll(c)| <= 8
  {
    var e := PushEight(c.actor, c.modality, c.action, c.thenTwice, c.andInResult, c.comma, c.prohibition, c.condition);
    PushEightMembers(c.actor, c.modality, c.action, c.thenTwice, c.andInResult, c.comma, c.prohibition, c.condition, x);
    assert PushAll(c) == e;
  }

  /** The checks of `validateRequirement` on an atom. */
  function ChecksOf(atom: RequirementAtom): Checks {
    var raw, result := atom.raw.GetOr(""), atom.result.GetOr("");
    Checks(
      StructureRule.Blank(atom.actor),
      StructureRule.Blank(atom.modality),
      StructureRule.Blank(atom.action),
      Truthy(atom.raw) && ThenMatches(raw, 0) > 1,
      Truthy(atom.result) && Includes(result, " and "),
      Truthy(atom.result) && CommaPieces(result) > 1,
      Prohibits(atom) && Truthy(atom.result),
      Truthy(atom.condition) && !Truthy(atom.modality))
  }

  /** The messages `validateRequirement` pushes, in push order. */
  function LegacyErrors(atom: RequirementAtom): seq<Message> {
    PushAll(ChecksOf(atom))
  }

  // Lines 22-85: push one message per failed check onto a local list.
  method ValidateLegacy(atom: RequirementAtom) returns (r: LegacyResult)
    ensures r.errors == LegacyErrors(atom)
    ensures r.valid <==> r.errors == []
  {
    ghost var c := ChecksOf(atom);
    var errors: seq<Message> := [];
    if StructureRule.Blank(atom.actor) {
      errors := errors + [ActorRequired];
    }
    ghost var e0 := errors;
    if StructureRule.Blank(atom.modality) {
      errors := errors + [ModalityRequired];
    }
    ghost var e1 := errors;
    if StructureRule.Blank(atom.action) {
      errors := errors + [ActionRequired];
    }
    ghost var e2 := errors;
    if Truthy(atom.raw) {
      var occurrences := ThenMatches(atom.raw.value, 0);
      if occurrences > 1 {
        errors := errors + [MultipleThen];
      }
    }
    ghost var e3 := errors;
    ghost var e4 := Push(e3, c.andInResult, MultipleResultActions);
    if Truthy(atom.result) {
      if Includes(atom.result.value, " and ") {
        errors := errors + [MultipleResultActions];
      }
      assert errors == e4;
      if CommaPieces(atom.result.value) > 1 {
        errors := errors + [CommaSeparatedResults];
      }
    }
    ghost var e5 := errors;
    if Prohibits(atom) && Truthy(atom.result) {
      errors := errors + [ProhibitionWithResult];
    }
    ghost var e6 := errors;
    if Truthy(atom.condition) && !Truthy(atom.modality) {
      errors := errors + [ConditionWithoutModality];
    }
    PushSteps(c, e0, e1, e2, e3, e4, e5, e6, errors);
    r := LegacyResult(|errors| == 0, errors);
  }

  /** The structural findings: each missing-field message is reported exactly when that field is blank. */
  lemma LegacyStructureFindings(atom: RequirementAtom)
    ensures ActorRequired in LegacyErrors(atom) <==> StructureRule.Blank(atom.actor)
    ensures ModalityRequired in LegacyErrors(atom) <==> StructureRule.Blank(atom.modality)
    ensures ActionRequired in LegacyErrors(atom) <==> StructureRule.Blank(atom.action)
  {
    PushAllMembers(ChecksOf(atom), ActorRequired);
    PushAllMembers(ChecksOf(atom), ModalityRequired);
    PushAllMembers(ChecksOf(atom), ActionRequired);
  }

  /** The atomicity findings: more than one standalone `then` in the raw text, `" and "` in the result, a comma in the result. */
  lemma LegacyAtomicityFindings(atom: RequirementAtom)
    ensures MultipleThen in LegacyErrors(atom) <==> Truthy(atom.raw) && ThenOccurrences(atom.raw.value, 0) >= 2
    ensures MultipleResultActions in LegacyErrors(atom) <==> Truthy(atom.result) && Includes(atom.result.value, " and ")
    ensures CommaSeparatedResults in LegacyErrors(atom) <==> Truthy(atom.result) && ',' in atom.result.value
  {
    PushAllMembers(ChecksOf(atom), MultipleThen);
    PushAllMembers(ChecksOf(atom), MultipleResultActions);
    PushAllMembers(ChecksOf(atom), CommaSeparatedResults);
    ThenMatchesCountsOccurrences(atom.raw.GetOr(""), 0);
    CommaPiecesCountsCommas(atom.result.GetOr(""));
  }

  /** The semantic findings: a prohibition with a result clause, and a condition without a modality. */
  lemma LegacySemanticFindings(atom: RequirementAtom)
    ensures ProhibitionWithResult in LegacyErrors(atom) <==> Prohibits(atom) && Truthy(atom.result)
    ensures ConditionWithoutModality in LegacyErrors(atom) <==> Truthy(atom.condition) && !Truthy(atom.modality)
  {
    PushAllMembers(ChecksOf(atom), ProhibitionWithResult);
    PushAllMembers(ChecksOf(atom), ConditionWithoutModality);
  }

  /** The legacy validator accepts an atom exactly when none of its eight checks fires. */
  lemma LegacyValid(atom: RequirementAtom)
    ensures LegacyErrors(atom) == [] <==>
      && !StructureRule.Blank(atom.actor) && !StructureRule.Blank(atom.modality) && !StructureRule.Blank(atom.action)
      && !(Truthy(atom.raw) && ThenOccurrences(atom.raw.value, 0) >= 2)
      && !(Truthy(atom.result) && (Includes(atom.result.value, " and ") || ',' in atom.result.value))
      && !(Prohibits(atom) && Truthy(atom.result))
      && !(Truthy(atom.condition) && !Truthy(atom.modality))
    ensures |LegacyErrors(atom)| <= 8
  {
    PushAllMembers(ChecksOf(atom), ActorRequired);
    ThenMatchesCountsOccurrences(atom.raw.GetOr(""), 0);
    CommaPiecesCountsCommas(atom.result.GetOr(""));
  }
}
