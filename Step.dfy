/** A step of a job (lib/step.ts): its attributes, the step built from an
    action reference, its synthesis and its validator. How a step is attached
    to the construct tree is in module Forest. */
module Step {
  import opened Wrappers
  import opened Assoc
  import opened Doc
  import opened ActionRef

  /** The public attributes of a step; `condition` is the source's `if`. */
  datatype StepProps = StepProps(
    name: Option<string>,
    uses: Option<string>,
    run: Option<string>,
    env: Option<Value>,
    with: Option<Value>,
    workingDirectory: Option<string>,
    shell: Option<string>,
    id: Option<string>,
    continueOnError: Option<bool>,
    timeoutMinutes: Option<int>,
    condition: Option<string>)

  /** The attributes of a step constructed without props: all undefined. */
  const Unset := StepProps(None, None, None, None, None, None, None, None, None, None, None)

  /** The props `Step.fromAction` accepts besides the action. */
  datatype ActionStepProps = ActionStepProps(
    name: Option<string>,
    env: Option<Value>,
    with: Option<Value>,
    id: Option<string>,
    continueOnError: Option<bool>,
    timeoutMinutes: Option<int>,
    condition: Option<string>)

  /** The attributes `Step.fromAction` passes to the constructor: `uses` is the
      action's text form, and `run`, `workingDirectory` and `shell` stay unset. */
  function FromAction(a: Action, p: Option<ActionStepProps>): (s: StepProps)
    ensures s.uses == Some(ToString(a))
    ensures s.run == None && s.workingDirectory == None && s.shell == None
    ensures p.None? ==> s == Unset.(uses := Some(ToString(a)))
  {
    match p
    case None => Unset.(uses := Some(ToString(a)))
    case Some(q) =>
      StepProps(q.name, Some(ToString(a)), None, q.env, q.with, None, None, q.id,
                q.continueOnError, q.timeoutMinutes, q.condition)
  }

  /** JavaScript truthiness of an optional string. */
  predicate IsSet(o: Option<string>)
  {
    o.Some? && o.value != ""
  }

  const NeitherUsesNorRun := "Step must have either uses or run"
  const BothUsesAndRun := "Step cannot have both uses and run"

  /** The step's validator. */
  function Errors(p: StepProps): seq<string>
  {
    (if !IsSet(p.uses) && !IsSet(p.run) then [NeitherUsesNorRun] else [])
    + (if IsSet(p.uses) && IsSet(p.run) then [BothUsesAndRun] else [])
  }

  /** Exactly one of `uses` and `run` must be set; each way of breaking the
      rule has its own message, and there is never more than one error. */
  lemma ErrorsCases(p: StepProps)
    ensures Errors(p) == [NeitherUsesNorRun] <==> !IsSet(p.uses) && !IsSet(p.run)
    ensures Errors(p) == [BothUsesAndRun] <==> IsSet(p.uses) && IsSet(p.run)
    ensures Errors(p) == [] <==> IsSet(p.uses) != IsSet(p.run)
    ensures |Errors(p)| <= 1
  {
    assert NeitherUsesNorRun != BothUsesAndRun by {
      assert NeitherUsesNorRun[5] != BothUsesAndRun[5];
    }
    assert [NeitherUsesNorRun][0] != [BothUsesAndRun][0];
  }

  /** A step built from an action always validates: the text form of an
      action is never empty. */
  lemma FromActionValid(a: Action, p: Option<ActionStepProps>)
    ensures Errors(FromAction(a, p)) == []
  {
    assert ToString(a)[|a.owner|] == '/';
  }

  /** The target keys of a synthesized step, in emission order. */
  const KeyOrder: seq<string> :=
    ["name", "uses", "run", "env", "with", "working-directory", "shell", "id",
     "continue-on-error", "timeout-minutes", "if"]

  /** Every target key offered, in the fixed order. */
  function Entries(p: StepProps): (e: seq<(string, Option<Value>)>)
    ensures Keys(e) == KeyOrder
  {
    [("name", IfNonEmpty(p.name)),
     ("uses", IfNonEmpty(p.uses)),
     ("run", IfNonEmpty(p.run)),
     ("env", p.env),
     ("with", p.with),
     ("working-directory", IfNonEmpty(p.workingDirectory)),
     ("shell", IfNonEmpty(p.shell)),
     ("id", IfNonEmpty(p.id)),
     ("continue-on-error", IfDefinedBool(p.continueOnError)),
     ("timeout-minutes", IfDefinedNum(p.timeoutMinutes)),
     ("if", IfNonEmpty(p.condition))]
  }

  /** `synth()`: the fields of the step's object, in order. */
  function Synth(p: StepProps): seq<(string, Value)>
  {
    Present(Entries(p))
  }

  lemma KeyOrderDistinct()
    ensures Distinct(KeyOrder)
  {
    forall i, j | 0 <= i < j < |KeyOrder|
      ensures KeyOrder[i] != KeyOrder[j]
    {
      assert |KeyOrder[i]| != |KeyOrder[j]| || KeyOrder[i][0] != KeyOrder[j][0]
        || KeyOrder[i][|KeyOrder[i]| - 1] != KeyOrder[j][|KeyOrder[j]| - 1];
    }
  }

  /** The synthesized step: keys in the fixed order and each at most once. */
  lemma SynthKeys(p: StepProps)
    ensures IsSubseq(Keys(Synth(p)), KeyOrder)
    ensures Distinct(Keys(Synth(p)))
    ensures forall k :: k in Keys(Synth(p)) ==> k in KeyOrder
  {
    KeyOrderDistinct();
    PresentKeys(Entries(p));
    PresentDistinct(Entries(p));
  }

  /** The fields of a synthesized step: optional strings left out when
      undefined or empty; `continue-on-error` and `timeout-minutes` kept
      whenever defined, `false` and `0` included; `workingDirectory`,
      `continueOnError`, `timeoutMinutes` and `if` under their target names. */
  lemma SynthFields(p: StepProps)
    ensures Get(Synth(p), "name") == IfNonEmpty(p.name)
    ensures Get(Synth(p), "uses") == IfNonEmpty(p.uses)
    ensures Get(Synth(p), "run") == IfNonEmpty(p.run)
    ensures Get(Synth(p), "env") == p.env
    ensures Get(Synth(p), "with") == p.with
    ensures Get(Synth(p), "working-directory") == IfNonEmpty(p.workingDirectory)
    ensures Get(Synth(p), "shell") == IfNonEmpty(p.shell)
    ensures Get(Synth(p), "id") == IfNonEmpty(p.id)
    ensures Get(Synth(p), "continue-on-error") == IfDefinedBool(p.continueOnError)
    ensures Get(Synth(p), "timeout-minutes") == IfDefinedNum(p.timeoutMinutes)
    ensures Get(Synth(p), "if") == IfNonEmpty(p.condition)
  {
    var e := Entries(p);
    KeyOrderDistinct();
    PresentGetAt(e, 0);
    PresentGetAt(e, 1);
    PresentGetAt(e, 2);
    PresentGetAt(e, 3);
    PresentGetAt(e, 4);
    PresentGetAt(e, 5);
    PresentGetAt(e, 6);
    PresentGetAt(e, 7);
    PresentGetAt(e, 8);
    PresentGetAt(e, 9);
    PresentGetAt(e, 10);
  }
}
