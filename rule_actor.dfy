/// `checkActor` (src/validation/ruleChecks/actor.ts): the actor, trimmed and
/// lower-cased, must be non-empty and must not be a placeholder.
module ActorRule {
  import opened Wrappers
  import opened Text
  import opened Types
  import StructureRule

  // Line 12.
  const InvalidActors: seq<string> := ["unknown", "n/a", "tbd", "todo", "someone", "anyone"]

  const ActorMissing := ValidationError("AFO-ACTOR-001", Error, Some("actor"), "Actor must be explicitly specified")
  const ActorPlaceholder := ValidationError("AFO-ACTOR-001", Error, Some("actor"), "Actor must be explicit and must not be a placeholder")

  /** Line 17: `(afo.actor ?? "").trim().toLowerCase()`. */
  function ActorKey(atom: RequirementAtom): (k: string)
    ensures k == [] <==> StructureRule.Blank(atom.actor)
  {
    LowerStr(Trim(atom.actor.GetOr("")))
  }

  /** The errors `checkActor` reports: at most one, for a blank actor or a placeholder actor. */
  function ActorErrors(atom: RequirementAtom): (errors: seq<ValidationError>)
    ensures StructureRule.Blank(atom.actor) ==> errors == [ActorMissing]
    ensures !StructureRule.Blank(atom.actor) && ActorKey(atom) in InvalidActors ==> errors == [ActorPlaceholder]
    ensures errors == [] <==> !StructureRule.Blank(atom.actor) && ActorKey(atom) !in InvalidActors
  {
    var actor := ActorKey(atom);
    if actor == [] then [ActorMissing]
    else if actor in InvalidActors then [ActorPlaceholder]
    else []
  }

  // Lines 14-40: the blank case pushes its error and returns early.
  method CheckActor(atom: RequirementAtom) returns (errors: seq<ValidationError>)
    ensures errors == ActorErrors(atom)
  {
    errors := [];
    var actor := LowerStr(Trim(if atom.actor.Some? then atom.actor.value else ""));
    if actor == [] {
      PushOnEmpty(errors, ActorMissing);
      errors := errors + [ActorMissing];
      return;
    }
    if actor in InvalidActors {
      PushOnEmpty(errors, ActorPlaceholder);
      errors := errors + [ActorPlaceholder];
    }
  }

  lemma PushOnEmpty<T>(s: seq<T>, x: T)
    requires s == []
    ensures s + [x] == [x]
  {
  }

  /** Surrounding white space and ASCII case do not change the verdict: the key of a padded actor is its lower-cased core. */
  lemma ActorKeyIgnoresCaseAndSpace(atom: RequirementAtom, pre: string, x: string, post: string)
    requires AllSpace(pre) && AllSpace(post)
    requires x != [] && !IsSpace(x[0]) && !IsSpace(x[|x| - 1])
    requires atom.actor == Some(pre + x + post)
    ensures ActorKey(atom) == LowerStr(x)
  {
    TrimAround(pre, x, post);
  }

  lemma LowerTbd()
    ensures LowerStr("TBD") == "tbd"
  {
    var l := LowerStr("TBD");
    assert l[0] == 't' && l[1] == 'b' && l[2] == 'd';
  }

  lemma LowerSystem()
    ensures LowerStr("system") == "system"
  {
    var l := LowerStr("system");
    assert l[0] == 's' && l[1] == 'y' && l[2] == 's' && l[3] == 't' && l[4] == 'e' && l[5] == 'm';
  }

  /** The verdict on two sample keys. */
  lemma KeyDecides(atom: RequirementAtom, key: string)
    requires ActorKey(atom) == key
    requires key == "tbd" || key == "system"
    ensures key == "tbd" ==> ActorErrors(atom) == [ActorPlaceholder]
    ensures key == "system" ==> ActorErrors(atom) == []
  {
    if key == "tbd" {
      TbdIsPlaceholder();
    } else {
      SystemIsNotPlaceholder();
    }
  }

  lemma TbdIsPlaceholder()
    ensures "tbd" in InvalidActors
  {
    assert InvalidActors[2] == "tbd";
  }

  lemma SystemIsNotPlaceholder()
    ensures "system" !in InvalidActors
  {
    forall i | 0 <= i < |InvalidActors|
      ensures InvalidActors[i] != "system"
    {
      assert InvalidActors[i][0] != 's' || |InvalidActors[i]| != 6;
    }
  }

  /** An upper-case placeholder padded with any white space, such as `" TBD "`, is rejected as a placeholder. */
  lemma PaddedPlaceholderRejected(atom: RequirementAtom, pre: string, post: string)
    requires AllSpace(pre) && AllSpace(post)
    requires atom.actor == Some(pre + "TBD" + post)
    ensures ActorErrors(atom) == [ActorPlaceholder]
  {
    ActorKeyIgnoresCaseAndSpace(atom, pre, "TBD", post);
    LowerTbd();
    KeyDecides(atom, "tbd");
  }

  /** An explicit actor such as `"system"`, with or without surrounding white space, passes. */
  lemma ExplicitActorAccepted(atom: RequirementAtom, pre: string, post: string)
    requires AllSpace(pre) && AllSpace(post)
    requires atom.actor == Some(pre + "system" + post)
    ensures ActorErrors(atom) == []
  {
    ActorKeyIgnoresCaseAndSpace(atom, pre, "system", post);
    LowerSystem();
    KeyDecides(atom, "system");
  }
}
