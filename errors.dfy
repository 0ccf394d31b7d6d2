/// src/errors/errors.ts: the closed family of requirement errors. Each
/// constructor computes its message once and sets `name` to its class name.
/// The constructors of MissingActorError, MissingModalityError and
/// MissingActionError take no argument, so the text a caller passes them is
/// dropped; InvalidModalityError embeds its argument; NormalizationError
/// appends its details when they are non-empty; SchemaValidationError keeps
/// the list it was given (its `errors` field).
module Errors {
  import opened Wrappers

  datatype RequirementError =
    | MissingActorError
    | MissingModalityError
    | InvalidModalityError(modality: string)
    | MissingActionError
    | NormalizationError(details: Option<string>)
    | SchemaValidationError(errors: seq<string>)

  datatype ErrorKind = MissingActor | MissingModality | InvalidModality | MissingAction | Normalization | SchemaValidation

  function KindOf(e: RequirementError): ErrorKind {
    match e
    case MissingActorError => MissingActor
    case MissingModalityError => MissingModality
    case InvalidModalityError(_) => InvalidModality
    case MissingActionError => MissingAction
    case NormalizationError(_) => Normalization
    case SchemaValidationError(_) => SchemaValidation
  }

  // Line 10: `name` is the class name of the error.
  function Name(e: RequirementError): (n: string)
    ensures |n| > 5 && n[|n| - 5..] == "Error"
  {
    match e
    case MissingActorError => "MissingActorError"
    case MissingModalityError => "MissingModalityError"
    case InvalidModalityError(_) => "InvalidModalityError"
    case MissingActionError => "MissingActionError"
    case NormalizationError(_) => "NormalizationError"
    case SchemaValidationError(_) => "SchemaValidationError"
  }

  const InvalidModalityPrefix: string := "Invalid modality '"
  const InvalidModalitySuffix: string := "': only 'must' and 'must not' are allowed."
  const NormalizationBase: string := "Normalization failed."

  function Message(e: RequirementError): (m: string)
    ensures |m| > 0
  {
    match e
    case MissingActorError => "Missing actor clause: expected 'As <actor>'."
    case MissingModalityError => "Missing modality: expected 'I must' or 'I must not'."
    case InvalidModalityError(modality) => InvalidModalityPrefix + modality + InvalidModalitySuffix
    case MissingActionError => "Missing action clause after modality."
    case NormalizationError(details) =>
      if details.Some? && details.value != "" then NormalizationBase + " " + details.value else NormalizationBase
    case SchemaValidationError(_) => "Schema validation failed."
  }

  // The name tells the kinds apart.
  lemma NameIdentifiesKind(a: RequirementError, b: RequirementError)
    ensures Name(a) == Name(b) <==> KindOf(a) == KindOf(b)
  {
    if KindOf(a) != KindOf(b) {
      var x, y := Name(a), Name(b);
      assert x[0] != y[0] || x[7] != y[7] || x[9] != y[9] || |x| != |y|;
    }
  }

  // The message tells the kinds apart too.
  lemma MessageIdentifiesKind(a: RequirementError, b: RequirementError)
    requires Message(a) == Message(b)
    ensures KindOf(a) == KindOf(b)
  {
    SignatureOf(a);
    SignatureOf(b);
    SignatureKindDistinct(KindOf(a), KindOf(b));
  }

  // Three characters of a message that differ between kinds.
  function Signature(m: string): seq<char> {
    if |m| > 17 then [m[8], m[12], m[17]] else []
  }

  function KindSignature(k: ErrorKind): seq<char> {
    match k
    case MissingActor => "aru"
    case MissingModality => "ml "
    case InvalidModality => "ml'"
    case MissingAction => "aoa"
    case Normalization => "anl"
    case SchemaValidation => "aa "
  }

  lemma SignatureKindDistinct(j: ErrorKind, k: ErrorKind)
    ensures KindSignature(j) == KindSignature(k) ==> j == k
  {
  }

  lemma SignatureOf(e: RequirementError)
    ensures Signature(Message(e)) == KindSignature(KindOf(e))
  {
    match e
    case InvalidModalityError(x) => SignatureInvalidModality(x);
    case NormalizationError(d) => SignatureNormalization(d);
    case MissingActorError => SignatureMissingActor();
    case MissingModalityError => SignatureMissingModality();
    case MissingActionError => SignatureMissingAction();
    case SchemaValidationError(errors) => SignatureSchemaValidation(errors);
  }

  lemma SignatureInvalidModality(x: string)
    ensures Signature(Message(InvalidModalityError(x))) == "ml'"
  {
    var m := Message(InvalidModalityError(x));
    assert m[..|InvalidModalityPrefix|] == InvalidModalityPrefix;
  }

  lemma SignatureNormalization(d: Option<string>)
    ensures Signature(Message(NormalizationError(d))) == "anl"
  {
    var m := Message(NormalizationError(d));
    assert m[..|NormalizationBase|] == NormalizationBase;
  }

  lemma SignatureMissingActor()
    ensures Signature(Message(MissingActorError)) == "aru"
  {
    var m := Message(MissingActorError);
    assert m[8] == 'a' && m[12] == 'r' && m[17] == 'u';
  }

  lemma SignatureMissingModality()
    ensures Signature(Message(MissingModalityError)) == "ml "
  {
    var m := Message(MissingModalityError);
    assert m == "Missing modality: expected 'I must' or 'I must not'.";
    assert m[8] == 'm';
    assert m[12] == 'l';
    assert m[17] == ' ';
  }

  lemma SignatureMissingAction()
    ensures Signature(Message(MissingActionError)) == "aoa"
  {
    var m := Message(MissingActionError);
    assert m[8] == 'a' && m[12] == 'o' && m[17] == 'a';
  }

  lemma SignatureSchemaValidation(errors: seq<string>)
    ensures Signature(Message(SchemaValidationError(errors))) == "aa "
  {
    var m := Message(SchemaValidationError(errors));
    assert m[8] == 'a' && m[12] == 'a' && m[17] == ' ';
  }

  // The modality an InvalidModalityError was built with, read back from its message.
  function ModalityInMessage(m: string): (r: Option<string>)
    ensures r.Some? ==> Message(InvalidModalityError(r.value)) == m
  {
    var p, s := |InvalidModalityPrefix|, |InvalidModalitySuffix|;
    if |m| >= p + s && m[..p] == InvalidModalityPrefix && m[|m| - s..] == InvalidModalitySuffix then
      var r := m[p..|m| - s];
      assert InvalidModalityPrefix + r + InvalidModalitySuffix == m;
      Some(r)
    else None
  }

  // Lines 35-41: the message embeds the given modality verbatim, between the quotes.
  lemma InvalidModalityRoundTrip(modality: string)
    ensures ModalityInMessage(Message(InvalidModalityError(modality))) == Some(modality)
  {
    var m := Message(InvalidModalityError(modality));
    var p := |InvalidModalityPrefix|;
    assert m[..p] == InvalidModalityPrefix;
    assert m[p..|m| - |InvalidModalitySuffix|] == modality;
    assert m[|m| - |InvalidModalitySuffix|..] == InvalidModalitySuffix;
  }

  // The details a NormalizationError message carries after `Normalization failed. `.
  function DetailsInMessage(m: string): (r: Option<string>)
  {
    var b := |NormalizationBase|;
    if |m| > b + 1 && m[..b + 1] == NormalizationBase + " " then Some(m[b + 1..]) else None
  }

  // Lines 55-59: the message is the base text alone exactly when there are no details or they are empty,
  // and otherwise the base text, a space and the details, which can be read back.
  lemma NormalizationMessage(details: Option<string>)
    ensures Message(NormalizationError(details)) == NormalizationBase <==> details.None? || details.value == ""
    ensures DetailsInMessage(Message(NormalizationError(details))) ==
      (if details.Some? && details.value != "" then details else None)
  {
    var m := Message(NormalizationError(details));
    var b := |NormalizationBase|;
    if details.Some? && details.value != "" {
      assert m[..b + 1] == NormalizationBase + " ";
      assert m[b + 1..] == details.value;
    }
  }
}
