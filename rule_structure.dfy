/// `checkStructure` (src/validation/ruleChecks/structure.ts): the three
/// required fields must be present and not blank.
module StructureRule {
  import opened Wrappers
  import opened Text
  import opened Types

  /** `!x || x.trim().length === 0`: missing, empty or only white space. */
  predicate Blank(x: Option<string>) {
    x.None? || AllSpace(x.value)
  }

  const ActorRequired := ValidationError("AFO-STRUCTURE-001", Error, Some("actor"), "Actor is required")
  const ModalityRequired := ValidationError("AFO-STRUCTURE-002", Error, Some("modality"), "Modality is required")
  const ActionRequired := ValidationError("AFO-STRUCTURE-003", Error, Some("action"), "Action is required")

  /** The position of a structure error's field among the required fields. */
  function Rank(e: ValidationError): nat {
    if e == ActorRequired then 0 else if e == ModalityRequired then 1 else 2
  }

  /** The errors `checkStructure` reports: one per blank required field, each once and in field order, all of error severity. */
  function StructureErrors(atom: RequirementAtom): (errors: seq<ValidationError>)
    ensures ActorRequired in errors <==> Blank(atom.actor)
    ensures ModalityRequired in errors <==> Blank(atom.modality)
    ensures ActionRequired in errors <==> Blank(atom.action)
    ensures forall e :: e in errors ==> e in [ActorRequired, ModalityRequired, ActionRequired]
    ensures errors == [] <==> !Blank(atom.actor) && !Blank(atom.modality) && !Blank(atom.action)
    ensures |errors| <= 3 && forall i :: 0 <= i < |errors| ==> errors[i].severity == Error
    ensures forall i, j :: 0 <= i < j < |errors| ==> Rank(errors[i]) < Rank(errors[j])
  {
    (if Blank(atom.actor) then [ActorRequired] else [])
    + (if Blank(atom.modality) then [ModalityRequired] else [])
    + (if Blank(atom.action) then [ActionRequired] else [])
  }

  // Lines 15-40: push one error per blank field onto a local list.
  method CheckStructure(atom: RequirementAtom) returns (errors: seq<ValidationError>)
    ensures errors == StructureErrors(atom)
  {
    errors := [];
    if atom.actor.None? || AllSpace(atom.actor.value) {
      errors := errors + [ActorRequired];
    }
    if atom.modality.None? || AllSpace(atom.modality.value) {
      errors := errors + [ModalityRequired];
    }
    if atom.action.None? || AllSpace(atom.action.value) {
      errors := errors + [ActionRequired];
    }
  }

}
