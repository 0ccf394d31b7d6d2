/// `validateRequirement` (src/validation/validator.ts): run the rule engine
/// and call the atom valid when it reports nothing.
module Validation {
  import opened Wrappers
  import opened Types
  import RuleEngine

  datatype ValidationResult = ValidationResult(valid: bool, errors: seq<ValidationError>)

  // Lines 24-30.
  function ValidateRequirement(atom: RequirementAtom): (r: ValidationResult)
    ensures r.errors == RuleEngine.ApplyRules(atom)
    ensures r.valid <==> RuleEngine.PassesAll(atom)
    ensures r.valid <==> r.errors == []
  {
    RuleEngine.ApplyRulesEmpty(atom);
    var errors := RuleEngine.ApplyRules(atom);
    ValidationResult(|errors| == 0, errors)
  }
}
