/// `checkModality` (src/validation/ruleChecks/modality.ts): only the binding
/// modal verbs `must` and `must not` are accepted, compared exactly.
module ModalityRule {
  import opened Wrappers
  import opened Types

  // Line 12.
  const BindingModalities: seq<string> := ["must", "must not"]

  const NotBinding := ValidationError("AFO-MODALITY-001", Error, Some("modality"), "Only binding modal verbs are allowed")

  /** `BINDING_MODALITIES.includes(afo.modality)`: a missing modality is never included. */
  predicate IsBinding(modality: Option<string>) {
    modality.Some? && modality.value in BindingModalities
  }

  /** The errors `checkModality` reports: one exactly when the modality is not `must` or `must not`. */
  function ModalityErrors(atom: RequirementAtom): (errors: seq<ValidationError>)
    ensures errors == [] || errors == [NotBinding]
    ensures errors == [] <==> atom.modality == Some("must") || atom.modality == Some("must not")
  {
    if IsBinding(atom.modality) then [] else [NotBinding]
  }

  // Lines 17-24.
  method CheckModality(atom: RequirementAtom) returns (errors: seq<ValidationError>)
    ensures errors == ModalityErrors(atom)
  {
    errors := [];
    if !(atom.modality.Some? && atom.modality.value in BindingModalities) {
      errors := errors + [NotBinding];
    }
  }

  /** The comparison is exact: `"should"`, `"MUST"` and a padded `" must"` are all rejected. */
  lemma NonBindingRejected(atom: RequirementAtom)
    requires atom.modality == Some("should") || atom.modality == Some("MUST") || atom.modality == Some(" must")
    ensures ModalityErrors(atom) == [NotBinding]
  {
  }
}
