/// `applyRules` (src/validation/ruleEngine.ts): the four rule checks, their
/// findings concatenated in a fixed order.
module RuleEngine {
  import opened Wrappers
  import opened Text
  import opened Types
  import Parser
  import StructureRule
  import ActorRule
  import AtomicityRule
  import ModalityRule

  /** Which check reports an error: 0 structure, 1 actor, 2 atomicity, 3 modality. */
  function Check(e: ValidationError): nat {
    if e.ruleId == "AFO-ACTOR-001" then 1
    else if e.ruleId == "AFO-ATOMICITY-001" then 2
    else if e.ruleId == "AFO-MODALITY-001" then 3
    else 0
  }

  /** An atom passes every rule: its required fields are filled, its actor is no placeholder, its action names one action and its modality is binding. */
  predicate PassesAll(atom: RequirementAtom) {
    && !StructureRule.Blank(atom.actor) && !StructureRule.Blank(atom.modality) && !StructureRule.Blank(atom.action)
    && ActorRule.ActorKey(atom) !in ActorRule.InvalidActors
    && !AtomicityRule.HasConjunction(AtomicityRule.ActionText(atom))
    && (atom.modality == Some("must") || atom.modality == Some("must not"))
  }

  // Lines 20-27.
  function ApplyRules(atom: RequirementAtom): (errors: seq<ValidationError>)
    ensures |errors| <= 6
  {
    StructureRule.StructureErrors(atom) + ActorRule.ActorErrors(atom)
    + AtomicityRule.AtomicityErrors(atom) + ModalityRule.ModalityErrors(atom)
  }

  lemma ApplyRulesParts(atom: RequirementAtom)
    ensures ApplyRules(atom) == StructureRule.StructureErrors(atom) + ActorRule.ActorErrors(atom)
      + AtomicityRule.AtomicityErrors(atom) + ModalityRule.ModalityErrors(atom)
  {
  }

  lemma InConcat(x: ValidationError, s: seq<ValidationError>, a: seq<ValidationError>, t: seq<ValidationError>, m: seq<ValidationError>)
    ensures x in s ==> x in s + a + t + m
    ensures x in a ==> x in s + a + t + m
    ensures x in m ==> x in s + a + t + m
    ensures s + a + t + m == [] <==> s == [] && a == [] && t == [] && m == []
  {
  }

  lemma StructureFlags(atom: RequirementAtom)
    ensures StructureRule.Blank(atom.actor) ==> StructureRule.ActorRequired in StructureRule.StructureErrors(atom)
    ensures StructureRule.Blank(atom.modality) ==> StructureRule.ModalityRequired in StructureRule.StructureErrors(atom)
    ensures StructureRule.StructureErrors(atom) == [] <==> !StructureRule.Blank(atom.actor) && !StructureRule.Blank(atom.modality) && !StructureRule.Blank(atom.action)
  {
  }

  lemma ActorFlags(atom: RequirementAtom)
    ensures StructureRule.Blank(atom.actor) ==> ActorRule.ActorErrors(atom) == [ActorRule.ActorMissing]
    ensures ActorRule.ActorErrors(atom) == [] <==> !StructureRule.Blank(atom.actor) && ActorRule.ActorKey(atom) !in ActorRule.InvalidActors
  {
  }

  lemma ModalityFlags(atom: RequirementAtom)
    ensures ModalityRule.ModalityErrors(atom) == [] <==> atom.modality == Some("must") || atom.modality == Some("must not")
    ensures ModalityRule.ModalityErrors(atom) != [] ==> ModalityRule.ModalityErrors(atom) == [ModalityRule.NotBinding]
  {
  }

  lemma AtomicityFlags(atom: RequirementAtom)
    ensures AtomicityRule.AtomicityErrors(atom) == [] <==> !AtomicityRule.HasConjunction(AtomicityRule.ActionText(atom))
  {
  }

  /** The engine reports nothing exactly when the atom passes every rule. */
  lemma ApplyRulesEmpty(atom: RequirementAtom)
    ensures ApplyRules(atom) == [] <==> PassesAll(atom)
  {
    ApplyRulesParts(atom);
    InConcat(StructureRule.ActorRequired, StructureRule.StructureErrors(atom), ActorRule.ActorErrors(atom),
      AtomicityRule.AtomicityErrors(atom), ModalityRule.ModalityErrors(atom));
    StructureFlags(atom);
    ActorFlags(atom);
    AtomicityFlags(atom);
    ModalityFlags(atom);
  }

  /** Each check reports only errors of its own rule family. */
  lemma ChecksOfFindings(atom: RequirementAtom)
    ensures forall e | e in StructureRule.StructureErrors(atom) :: Check(e) == 0
    ensures forall e | e in ActorRule.ActorErrors(atom) :: Check(e) == 1
    ensures forall e | e in AtomicityRule.AtomicityErrors(atom) :: Check(e) == 2
    ensures forall e | e in ModalityRule.ModalityErrors(atom) :: Check(e) == 3
  {
  }

  /** Four lists whose members belong to the families 0, 1, 2 and 3 concatenate into a list grouped by family. */
  lemma {:induction false} GroupedConcat(s: seq<ValidationError>, a: seq<ValidationError>, t: seq<ValidationError>, m: seq<ValidationError>)
    requires forall e | e in s :: Check(e) == 0
    requires forall e | e in a :: Check(e) == 1
    requires forall e | e in t :: Check(e) == 2
    requires forall e | e in m :: Check(e) == 3
    ensures forall i, j :: 0 <= i < j < |s + a + t + m| ==> Check((s + a + t + m)[i]) <= Check((s + a + t + m)[j])
  {
    var r := s + a + t + m;
    forall i, j | 0 <= i < j < |r| ensures Check(r[i]) <= Check(r[j]) {
      var k := if i < |s| then 0 else if i < |s| + |a| then 1 else if i < |s| + |a| + |t| then 2 else 3;
      assert Check(r[i]) == k by {
        if i < |s| { assert r[i] == s[i]; }
        else if i < |s| + |a| { assert r[i] == a[i - |s|]; }
        else if i < |s| + |a| + |t| { assert r[i] == t[i - |s| - |a|]; }
        else { assert r[i] == m[i - |s| - |a| - |t|]; }
      }
      assert Check(r[j]) >= k by {
        if j < |s| { assert r[j] == s[j]; }
        else if j < |s| + |a| { assert r[j] == a[j - |s|]; }
        else if j < |s| + |a| + |t| { assert r[j] == t[j - |s| - |a|]; }
        else { assert r[j] == m[j - |s| - |a| - |t|]; }
      }
    }
  }

  /** The findings come grouped by check, in the order structure, actor, atomicity, modality. */
  lemma ApplyRulesGrouped(atom: RequirementAtom)
    ensures forall i, j :: 0 <= i < j < |ApplyRules(atom)| ==> Check(ApplyRules(atom)[i]) <= Check(ApplyRules(atom)[j])
  {
    ChecksOfFindings(atom);
    GroupedConcat(StructureRule.StructureErrors(atom), ActorRule.ActorErrors(atom),
      AtomicityRule.AtomicityErrors(atom), ModalityRule.ModalityErrors(atom));
  }

  /** A blank actor is reported twice: once by the structure check and once by the actor check. */
  lemma BlankActorReportedTwice(atom: RequirementAtom)
    requires StructureRule.Blank(atom.actor)
    ensures StructureRule.ActorRequired in ApplyRules(atom)
    ensures ActorRule.ActorMissing in ApplyRules(atom)
  {
    var s, a := StructureRule.StructureErrors(atom), ActorRule.ActorErrors(atom);
    var t, m := AtomicityRule.AtomicityErrors(atom), ModalityRule.ModalityErrors(atom);
    ApplyRulesParts(atom);
    StructureFlags(atom);
    ActorFlags(atom);
    InConcat(StructureRule.ActorRequired, s, a, t, m);
    InConcat(ActorRule.ActorMissing, s, a, t, m);
  }

  lemma BlankIsNotBinding(x: Option<string>)
    requires StructureRule.Blank(x)
    ensures x != Some("must") && x != Some("must not")
  {
    if x.Some? && x.value != [] {
      assert IsSpace(x.value[0]);
    }
  }

  /** A blank modality is reported twice: once by the structure check and once by the modality check. */
  lemma BlankModalityReportedTwice(atom: RequirementAtom)
    requires StructureRule.Blank(atom.modality)
    ensures StructureRule.ModalityRequired in ApplyRules(atom)
    ensures ModalityRule.NotBinding in ApplyRules(atom)
  {
    var s, a := StructureRule.StructureErrors(atom), ActorRule.ActorErrors(atom);
    var t, m := AtomicityRule.AtomicityErrors(atom), ModalityRule.ModalityErrors(atom);
    ApplyRulesParts(atom);
    StructureFlags(atom);
    ModalityFlags(atom);
    BlankIsNotBinding(atom.modality);
    InConcat(StructureRule.ModalityRequired, s, a, t, m);
    InConcat(ModalityRule.NotBinding, s, a, t, m);
  }

  lemma ParsedAtomFilled(atom: RequirementAtom)
    requires Parser.ParsedAtom(atom)
    ensures !StructureRule.Blank(atom.actor) && !StructureRule.Blank(atom.modality) && !StructureRule.Blank(atom.action)
    ensures atom.modality == Some("must") || atom.modality == Some("must not")
  {
    assert !IsSpace(atom.actor.value[0]) by { assert Parser.IsActorChar(atom.actor.value[0]); }
    assert !IsSpace(atom.action.value[0]);
    assert atom.modality.value[0] == 'm';
  }

  lemma ParsedActorKey(atom: RequirementAtom)
    requires Parser.ParsedAtom(atom)
    ensures ActorRule.ActorKey(atom) == atom.actor.value
  {
    var actor := atom.actor.value;
    ActorCharsTrimmed(actor);
    LowerStrNoUpper(actor);
  }

  lemma ActorCharsTrimmed(actor: string)
    requires actor != [] && forall j :: 0 <= j < |actor| ==> Parser.IsActorChar(actor[j])
    ensures Trim(actor) == actor
  {
    assert !IsSpace(actor[0]) by { assert Parser.IsActorChar(actor[0]); }
    assert !IsSpace(actor[|actor| - 1]) by { assert Parser.IsActorChar(actor[|actor| - 1]); }
    TrimAround([], actor, []);
    assert [] + actor + [] == actor;
  }

  lemma DropEmpty(s: seq<ValidationError>, a: seq<ValidationError>, t: seq<ValidationError>, m: seq<ValidationError>)
    requires s == [] && m == []
    ensures s + a + t + m == a + t
  {
  }

  /** An atom the parser produced can only be reported by the actor check (a placeholder actor) and the atomicity check (`and`/`or` in the action). */
  lemma ParsedAtomFindings(atom: RequirementAtom)
    requires Parser.ParsedAtom(atom)
    ensures ApplyRules(atom) == ActorRule.ActorErrors(atom) + AtomicityRule.AtomicityErrors(atom)
    ensures ActorRule.ActorKey(atom) == atom.actor.value
  {
    ParsedAtomFilled(atom);
    ParsedActorKey(atom);
    StructureFlags(atom);
    ModalityFlags(atom);
    ApplyRulesParts(atom);
    DropEmpty(StructureRule.StructureErrors(atom), ActorRule.ActorErrors(atom),
      AtomicityRule.AtomicityErrors(atom), ModalityRule.ModalityErrors(atom));
  }

  /** So a parsed atom is valid exactly when its actor is no placeholder and its action holds no standalone `and` or `or`. */
  lemma ParsedAtomValid(atom: RequirementAtom)
    requires Parser.ParsedAtom(atom)
    ensures ApplyRules(atom) == [] <==> atom.actor.value !in ActorRule.InvalidActors && !AtomicityRule.HasConjunction(atom.action.value)
  {
    ParsedAtomFindings(atom);
    ApplyRulesEmpty(atom);
  }
}
