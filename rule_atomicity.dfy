/// `checkAtomicity` (src/validation/ruleChecks/atomicity.ts): an action that
/// contains the standalone word `and` or `or` (case-sensitive, as
/// `/\band\b|\bor\b/` without the `i` flag) describes more than one action.
module AtomicityRule {
  import opened Wrappers
  import opened Text
  import opened Types

  const MultipleActions := ValidationError("AFO-ATOMICITY-001", Error, Some("action"), "Multiple actions detected in a single requirement")

  /** `\bw\b` matches at index `i` of `s`, for a word `w` made of word characters. */
  predicate WordAt(s: string, i: nat, w: string) {
    && i + |w| <= |s| && s[i..i + |w|] == w
    && (i == 0 || !IsWordChar(s[i - 1]))
    && EndsWord(s, i + |w|)
  }

  /** Either alternative of the regular expression matches at index `i`. */
  predicate ConjunctionAt(s: string, i: nat) {
    WordAt(s, i, "and") || WordAt(s, i, "or")
  }

  /** The declarative reading of `test`: a match exists somewhere. */
  predicate HasConjunction(s: string) {
    exists i :: 0 <= i < |s| && ConjunctionAt(s, i)
  }

  /** How `test` searches: the first index at or after `i` where the expression matches, or `None`. */
  function FindConjunction(s: string, i: nat): (r: Option<nat>)
    decreases |s| - i
    ensures r.Some? ==> i <= r.value < |s| && ConjunctionAt(s, r.value)
  {
    if i >= |s| then None
    else if ConjunctionAt(s, i) then Some(i)
    else FindConjunction(s, i + 1)
  }

  /** The search misses a match only if there is none at or after `i`, and it returns the leftmost one. */
  lemma {:induction false} FindConjunctionLeftmost(s: string, i: nat)
    ensures FindConjunction(s, i).None? ==> forall j :: i <= j < |s| ==> !ConjunctionAt(s, j)
    ensures FindConjunction(s, i).Some? ==> forall j :: i <= j < FindConjunction(s, i).value ==> !ConjunctionAt(s, j)
    decreases |s| - i
  {
    if i < |s| && !ConjunctionAt(s, i) {
      FindConjunctionLeftmost(s, i + 1);
    }
  }

  /** The text `test` sees: a missing action is coerced to `"undefined"`. */
  function ActionText(atom: RequirementAtom): string {
    atom.action.GetOr("undefined")
  }

  /** The errors `checkAtomicity` reports: one exactly when the action holds a standalone `and` or `or`. */
  function AtomicityErrors(atom: RequirementAtom): (errors: seq<ValidationError>)
    ensures errors == [] || errors == [MultipleActions]
    ensures errors == [MultipleActions] <==> HasConjunction(ActionText(atom))
  {
    FindConjunctionLeftmost(ActionText(atom), 0);
    if FindConjunction(ActionText(atom), 0).Some? then [MultipleActions] else []
  }

  // Lines 15-24.
  method CheckAtomicity(atom: RequirementAtom) returns (errors: seq<ValidationError>)
    ensures errors == AtomicityErrors(atom)
  {
    errors := [];
    var hasMultipleActions := FindConjunction(if atom.action.Some? then atom.action.value else "undefined", 0).Some?;
    if hasMultipleActions {
      errors := errors + [MultipleActions];
    }
  }

  /** A standalone `and` between two parts of an action, as in `"validate and log the access token"`, is reported. */
  lemma ConjoinedActionRejected(atom: RequirementAtom, x: string, y: string)
    requires atom.action == Some(x + " and " + y)
    ensures AtomicityErrors(atom) == [MultipleActions]
  {
    var s := x + " and " + y;
    assert s[|x| + 1..|x| + 4] == "and";
    assert s[|x|] == ' ';
    assert |x| + 4 == |s| || s[|x| + 4] == ' ';
    assert ConjunctionAt(s, |x| + 1);
  }

  /** The same word in upper case, or inside a longer word, is not a match: only lower-case standalone words count. */
  lemma ConjunctionIsLowerCaseWord(s: string, i: nat)
    requires ConjunctionAt(s, i)
    ensures s[i] == 'a' || s[i] == 'o'
    ensures i == 0 || !IsWordChar(s[i - 1])
  {
    if WordAt(s, i, "and") {
      assert s[i] == s[i..i + 3][0];
    } else {
      assert s[i] == s[i..i + 2][0];
    }
  }

  /** A requirement without an action is not reported: `"undefined"` holds neither word. */
  lemma MissingActionNotReported(atom: RequirementAtom)
    requires atom.action.None?
    ensures AtomicityErrors(atom) == []
  {
    var s := ActionText(atom);
    forall i | 0 <= i < |s| ensures !ConjunctionAt(s, i) {
      if ConjunctionAt(s, i) {
        ConjunctionIsLowerCaseWord(s, i);
      }
    }
  }
}
