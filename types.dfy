/// The records the pipeline passes around. `RequirementAtom` (declared in
/// src/types/RequirementAtom.ts, which is not part of this model) is
/// reconstructed from its uses: the parser fills `actor`, `modality`,
/// `action` and, when non-empty, `condition` and `result`; the legacy
/// validator also reads `raw`. An absent field is `None`.
module Types {
  import opened Wrappers

  datatype RequirementAtom = RequirementAtom(
    actor: Option<string>,
    modality: Option<string>,
    action: Option<string>,
    condition: Option<string>,
    result: Option<string>,
    raw: Option<string>)

  // src/validation/types.ts:1-6.
  datatype Severity = Error | Warning

  datatype ValidationError = ValidationError(
    ruleId: string,
    severity: Severity,
    field: Option<string>,
    message: string)

  // The truthiness of an optional string in JavaScript: present and not empty.
  predicate Truthy(s: Option<string>) {
    s.Some? && s.value != ""
  }
}
