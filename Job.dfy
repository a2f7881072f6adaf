/** The attributes of a job and what its synthesis and its validator compute
    from them (lib/job.ts; src/job.ts is the same code over named prop
    interfaces). What the validator reads from the construct tree (the number
    of step children, the declared ids of the sibling jobs) is a parameter
    here; module Forest computes it. */
module Job {
  import opened Wrappers
  import opened Assoc
  import opened Doc

  /** `runsOn: string | string[]`. */
  datatype RunsOn = Label(text: string) | Labels(texts: seq<string>)

  /** The attributes of a job; `env`, `defaults`, `strategy`, `permissions`,
      `container`, `services` and `outputs` are records copied through. */
  datatype JobProps = JobProps(
    runsOn: RunsOn,
    name: Option<string>,
    needs: Option<seq<string>>,
    env: Option<Value>,
    defaults: Option<Value>,
    strategy: Option<Value>,
    continueOnError: Option<bool>,
    timeoutMinutes: Option<int>,
    permissions: Option<Value>,
    container: Option<Value>,
    services: Option<Value>,
    outputs: Option<Value>)

  /** `!this.runsOn || (Array.isArray(this.runsOn) && this.runsOn.length === 0)`. */
  predicate RunsOnMissing(r: RunsOn)
  {
    match r
    case Label(l) => l == ""
    case Labels(ls) => ls == []
  }

  function RunsOnValue(r: RunsOn): Value
  {
    match r
    case Label(l) => Str(l)
    case Labels(ls) => Arr(Strings(ls))
  }

  const NoRunsOn := "Job must specify runs-on"
  const NoSteps := "Job must have at least one step"

  function MissingNeed(need: string): string
  {
    "Job dependency '" + need + "' not found in workflow"
  }

  /** One error per entry of `needs` that is not a declared id, in order. */
  function MissingNeeds(needs: seq<string>, ids: set<string>): seq<string>
  {
    if needs == [] then []
    else
      var last := needs[|needs| - 1];
      MissingNeeds(needs[..|needs| - 1], ids) + (if last !in ids then [MissingNeed(last)] else [])
  }

  /** The job's validator. `stepCount` is the number of `Step` children;
      `siblingIds` is the set of declared ids of the jobs of the parent
      workflow, or `None` when the job's scope is not a workflow. */
  function Errors(p: JobProps, stepCount: nat, siblingIds: Option<set<string>>): seq<string>
  {
    (if RunsOnMissing(p.runsOn) then [NoRunsOn] else [])
    + (if stepCount == 0 then [NoSteps] else [])
    + (if p.needs.Some? && |p.needs.value| > 0 && siblingIds.Some?
       then MissingNeeds(p.needs.value, siblingIds.value) else [])
  }

  lemma MissingNeedInjective(a: string, b: string)
    requires MissingNeed(a) == MissingNeed(b)
    ensures a == b
  {
    var pre := "Job dependency '";
    var post := "' not found in workflow";
    assert |pre + a + post| == |pre + b + post|;
    assert a == MissingNeed(a)[|pre|..|pre| + |a|];
    assert b == MissingNeed(b)[|pre|..|pre| + |b|];
  }

  /** Each unresolved need gives exactly one message and a resolved one none:
      the message for `n` is there exactly when `n` is needed and not declared. */
  lemma {:induction false} MissingNeedsMembers(needs: seq<string>, ids: set<string>, n: string)
    ensures MissingNeed(n) in MissingNeeds(needs, ids) <==> n in needs && n !in ids
    ensures |MissingNeeds(needs, ids)| <= |needs|
    ensures (forall i :: 0 <= i < |needs| ==> needs[i] in ids) <==> MissingNeeds(needs, ids) == []
  {
    if needs != [] {
      var init := needs[..|needs| - 1];
      var last := needs[|needs| - 1];
      MissingNeedsMembers(init, ids, n);
      assert needs == init + [last];
      if MissingNeed(n) == MissingNeed(last) {
        MissingNeedInjective(n, last);
      }
      assert (forall i :: 0 <= i < |needs| ==> needs[i] in ids) <==>
        (forall i :: 0 <= i < |init| ==> init[i] in ids) && last in ids;
    }
  }

  /** Each message of a missing dependency is one of the dependency errors. */
  lemma MissingNeedsAreMessages(needs: seq<string>, ids: set<string>)
    ensures forall m :: m in MissingNeeds(needs, ids) ==> exists n :: n in needs && n !in ids && m == MissingNeed(n)
  {
    forall m | m in MissingNeeds(needs, ids)
      ensures exists n :: n in needs && n !in ids && m == MissingNeed(n)
    {
      MissingNeedsShape(needs, ids, m);
    }
  }

  lemma {:induction false} MissingNeedsShape(needs: seq<string>, ids: set<string>, m: string)
    requires m in MissingNeeds(needs, ids)
    ensures exists n :: n in needs && n !in ids && m == MissingNeed(n)
  {
    var init := needs[..|needs| - 1];
    var last := needs[|needs| - 1];
    assert needs == init + [last];
    if m in MissingNeeds(init, ids) {
      MissingNeedsShape(init, ids, m);
      var n :| n in init && n !in ids && m == MissingNeed(n);
      assert n in needs;
    } else {
      assert last in needs && last !in ids && m == MissingNeed(last);
    }
  }

  /** No dependency message is one of the two fixed messages. */
  lemma MissingNeedDiffers(n: string)
    ensures MissingNeed(n) != NoRunsOn && MissingNeed(n) != NoSteps
  {
    assert MissingNeed(n)[4] == 'd';
    assert NoRunsOn[4] == 'm' && NoSteps[4] == 'm';
  }

  /** The three rules of the validator, each exactly when its condition holds,
      and all errors reported together: an empty `runsOn`, no steps and `k`
      missing needs give `2 + k` errors. The needs check is skipped when the
      scope is not a workflow. */
  lemma ErrorsCases(p: JobProps, stepCount: nat, siblingIds: Option<set<string>>)
    ensures NoRunsOn in Errors(p, stepCount, siblingIds) <==> RunsOnMissing(p.runsOn)
    ensures NoSteps in Errors(p, stepCount, siblingIds) <==> stepCount == 0
    ensures forall n :: MissingNeed(n) in Errors(p, stepCount, siblingIds) <==>
      siblingIds.Some? && p.needs.Some? && n in p.needs.value && n !in siblingIds.value
    ensures siblingIds.None? || p.needs.None? ==>
      Errors(p, stepCount, siblingIds) == (if RunsOnMissing(p.runsOn) then [NoRunsOn] else [])
                                         + (if stepCount == 0 then [NoSteps] else [])
    ensures |Errors(p, stepCount, siblingIds)| ==
      (if RunsOnMissing(p.runsOn) then 1 else 0) + (if stepCount == 0 then 1 else 0)
      + (if siblingIds.Some? && p.needs.Some? then |MissingNeeds(p.needs.value, siblingIds.value)| else 0)
  {
    var fixed := (if RunsOnMissing(p.runsOn) then [NoRunsOn] else []) + (if stepCount == 0 then [NoSteps] else []);
    var deps := if p.needs.Some? && |p.needs.value| > 0 && siblingIds.Some?
                then MissingNeeds(p.needs.value, siblingIds.value) else [];
    assert Errors(p, stepCount, siblingIds) == fixed + deps;
    assert NoRunsOn != NoSteps by { assert NoRunsOn[9] != NoSteps[9]; }
    if siblingIds.Some? && p.needs.Some? {
      MissingNeedsAreMessages(p.needs.value, siblingIds.value);
      forall m | m in deps ensures m != NoRunsOn && m != NoSteps {
        var n :| n in p.needs.value && n !in siblingIds.value && m == MissingNeed(n);
        MissingNeedDiffers(n);
      }
    }
    forall n ensures MissingNeed(n) in Errors(p, stepCount, siblingIds) <==>
      siblingIds.Some? && p.needs.Some? && n in p.needs.value && n !in siblingIds.value
    {
      MissingNeedDiffers(n);
      if siblingIds.Some? && p.needs.Some? {
        MissingNeedsMembers(p.needs.value, siblingIds.value, n);
      }
    }
  }

  /** The target keys of a synthesized job, in emission order. */
  const KeyOrder: seq<string> :=
    ["runs-on", "name", "needs", "env", "defaults", "strategy", "continue-on-error",
     "timeout-minutes", "permissions", "container", "services", "outputs", "steps"]

  /** Every target key offered, in the fixed order. */
  function Entries(p: JobProps, steps: seq<Value>): (e: seq<(string, Option<Value>)>)
    ensures Keys(e) == KeyOrder
  {
    [("runs-on", Some(RunsOnValue(p.runsOn))),
     ("name", IfNonEmpty(p.name)),
     ("needs", if p.needs.Some? then Some(Arr(Strings(p.needs.value))) else None),
     ("env", p.env),
     ("defaults", p.defaults),
     ("strategy", p.strategy),
     ("continue-on-error", IfDefinedBool(p.continueOnError)),
     ("timeout-minutes", IfDefinedNum(p.timeoutMinutes)),
     ("permissions", p.permissions),
     ("container", p.container),
     ("services", p.services),
     ("outputs", p.outputs),
     ("steps", Some(Arr(steps)))]
  }

  /** `synth()`, given the synthesized steps in child order. */
  function Synth(p: JobProps, steps: seq<Value>): seq<(string, Value)>
  {
    Present(Entries(p, steps))
  }

  lemma KeyOrderDistinct()
    ensures Distinct(KeyOrder)
  {
    forall i, j | 0 <= i < j < |KeyOrder|
      ensures KeyOrder[i] != KeyOrder[j]
    {
      assert |KeyOrder[i]| != |KeyOrder[j]| || KeyOrder[i][0] != KeyOrder[j][0]
        || KeyOrder[i][|KeyOrder[i]| - 1] != KeyOrder[j][|KeyOrder[j]| - 1];
    }
  }

  /** The synthesized job: `runs-on` first and `steps` last, always, and
      the keys in the fixed order, each at most once. */
  lemma SynthOrder(p: JobProps, steps: seq<Value>)
    ensures |Synth(p, steps)| >= 2
    ensures Synth(p, steps)[0] == ("runs-on", RunsOnValue(p.runsOn))
    ensures Synth(p, steps)[|Synth(p, steps)| - 1] == ("steps", Arr(steps))
    ensures IsSubseq(Keys(Synth(p, steps)), KeyOrder)
    ensures Distinct(Keys(Synth(p, steps)))
  {
    var e := Entries(p, steps);
    KeyOrderDistinct();
    PresentKeys(e);
    PresentDistinct(e);
    PresentEnds(e);
  }

  /** The optional keys of a synthesized job: each only when present;
      `continue-on-error` and `timeout-minutes` even when `false` or `0`;
      `needs` whenever it is defined, even empty. */
  lemma SynthFields(p: JobProps, steps: seq<Value>)
    ensures Get(Synth(p, steps), "name") == IfNonEmpty(p.name)
    ensures Get(Synth(p, steps), "needs") == if p.needs.Some? then Some(Arr(Strings(p.needs.value))) else None
    ensures Get(Synth(p, steps), "env") == p.env
    ensures Get(Synth(p, steps), "defaults") == p.defaults
    ensures Get(Synth(p, steps), "strategy") == p.strategy
    ensures Get(Synth(p, steps), "continue-on-error") == IfDefinedBool(p.continueOnError)
    ensures Get(Synth(p, steps), "timeout-minutes") == IfDefinedNum(p.timeoutMinutes)
    ensures Get(Synth(p, steps), "permissions") == p.permissions
    ensures Get(Synth(p, steps), "container") == p.container
    ensures Get(Synth(p, steps), "services") == p.services
    ensures Get(Synth(p, steps), "outputs") == p.outputs
  {
    var e := Entries(p, steps);
    KeyOrderDistinct();
    PresentGetAt(e, 1);
    PresentGetAt(e, 2);
    PresentGetAt(e, 3);
    PresentGetAt(e, 4);
    PresentGetAt(e, 5);
    PresentGetAt(e, 6);
    PresentGetAt(e, 7);
    PresentGetAt(e, 8);
    PresentGetAt(e, 9);
    PresentGetAt(e, 10);
    PresentGetAt(e, 11);
  }

  /** A job whose only attribute is `runsOn`, with one step whatever that
      step's document, synthesizes to exactly `{runs-on, steps: [doc]}`. */
  lemma MinimalJob(machine: string, stepDoc: Value)
    ensures Synth(JobProps(Label(machine), None, None, None, None, None, None, None, None, None, None, None), [stepDoc])
            == [("runs-on", Str(machine)), ("steps", Arr([stepDoc]))]
  {
    var e := Entries(JobProps(Label(machine), None, None, None, None, None, None, None, None, None, None, None), [stepDoc]);
    assert e == [e[0]] + e[1..12] + [e[12]];
    PresentNone(e[1..12]);
    PresentConcat([e[0]] + e[1..12], [e[12]]);
    PresentConcat([e[0]], e[1..12]);
  }
}
