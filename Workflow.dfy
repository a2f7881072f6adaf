/** The attributes of a workflow and what its synthesis and its validator
    compute from them (lib/workflow.ts and src/workflow.ts, which agree on
    all of this): trigger translation, the three validation rules, the
    document's top-level shape, the output file name and the header. The
    workflow's job registry and its children live in module Forest. */
module Workflow {
  import opened Wrappers
  import opened Assoc
  import opened Doc
  import opened Text

  /** The attributes of a workflow. `on` holds the trigger keys in their
      insertion order, as `Object.entries` lists them. */
  datatype WorkflowProps = WorkflowProps(
    name: string,
    on: seq<(string, Value)>,
    env: Option<Value>,
    defaults: Option<Value>,
    permissions: Option<Value>,
    concurrency: Option<Value>)

  const NoName := "Workflow name is required"
  const NoTrigger := "Workflow must have at least one trigger"
  const NoJob := "Workflow must have at least one job"

  function DuplicateJobId(id: string): string
  {
    "Duplicate job ID: " + id
  }

  /** The three reachable rules of the validator; `jobCount` is the number of
      `Job` children (not of registry entries). The duplicate-id rule is in
      `DuplicateErrors`. */
  function Errors(name: string, on: seq<(string, Value)>, jobCount: nat): seq<string>
  {
    (if Blank(name) then [NoName] else [])
    + (if on == [] then [NoTrigger] else [])
    + (if jobCount == 0 then [NoJob] else [])
  }

  /** Each rule fires exactly when its condition holds, and all are reported
      together. */
  lemma ErrorsCases(name: string, on: seq<(string, Value)>, jobCount: nat)
    ensures NoName in Errors(name, on, jobCount) <==> Blank(name)
    ensures NoTrigger in Errors(name, on, jobCount) <==> on == []
    ensures NoJob in Errors(name, on, jobCount) <==> jobCount == 0
    ensures |Errors(name, on, jobCount)| ==
      (if Blank(name) then 1 else 0) + (if on == [] then 1 else 0) + (if jobCount == 0 then 1 else 0)
  {
    assert NoName[9] != NoTrigger[9] && NoName[9] != NoJob[9];
    assert NoTrigger[|NoTrigger| - 1] != NoJob[|NoJob| - 1];
  }

  /** What the duplicate check of the validator reports when it walks the
      registry's keys with a set of the keys seen so far: one message per key
      already seen. */
  function DuplicateErrors(keys: seq<string>): seq<string>
  {
    if keys == [] then []
    else
      var init := keys[..|keys| - 1];
      var last := keys[|keys| - 1];
      DuplicateErrors(init) + (if last in init then [DuplicateJobId(last)] else [])
  }

  /** The keys of a `Map` are distinct, so the duplicate check never fires. */
  lemma {:induction false} NoDuplicateErrors(keys: seq<string>)
    requires Distinct(keys)
    ensures DuplicateErrors(keys) == []
  {
    if keys != [] {
      var init := keys[..|keys| - 1];
      assert forall i, j :: 0 <= i < j < |init| ==> init[i] == keys[i] && init[j] == keys[j];
      NoDuplicateErrors(init);
    }
  }

  /** The check reports nothing only for distinct keys. */
  lemma {:induction false} DuplicateErrorsIffRepeated(keys: seq<string>)
    ensures DuplicateErrors(keys) == [] <==> Distinct(keys)
  {
    if keys != [] {
      var init := keys[..|keys| - 1];
      var last := keys[|keys| - 1];
      DuplicateErrorsIffRepeated(init);
      assert keys == init + [last];
      if Distinct(keys) {
        NoDuplicateErrors(keys);
      }
    }
  }

  /** Trigger names as written by the caller and as GitHub Actions spells them. */
  const KnownTriggers: seq<(string, string)> :=
    [("push", "push"),
     ("pullRequest", "pull_request"),
     ("workflowDispatch", "workflow_dispatch"),
     ("schedule", "schedule"),
     ("repositoryDispatch", "repository_dispatch"),
     ("workflowCall", "workflow_call")]

  predicate IsKnownTrigger(k: string)
  {
    k in ["push", "pullRequest", "workflowDispatch", "schedule", "repositoryDispatch", "workflowCall"]
  }

  /** `if (this.on.x)`: the trigger, when it is there and truthy. */
  function IfTruthy(o: Option<Value>): Option<Value>
  {
    if o.Some? && Truthy(o.value) then o else None
  }

  /** The known triggers under their target names, in the fixed order of
      the source, each with its value when it is present and truthy. */
  function KnownEntries(on: seq<(string, Value)>): seq<(string, Option<Value>)>
  {
    [("push", IfTruthy(Get(on, "push"))),
     ("pull_request", IfTruthy(Get(on, "pullRequest"))),
     ("workflow_dispatch", IfTruthy(Get(on, "workflowDispatch"))),
     ("schedule", IfTruthy(Get(on, "schedule"))),
     ("repository_dispatch", IfTruthy(Get(on, "repositoryDispatch"))),
     ("workflow_call", IfTruthy(Get(on, "workflowCall")))]
  }

  function KnownPart(on: seq<(string, Value)>): seq<(string, Value)>
  {
    Present(KnownEntries(on))
  }

  /** The target names are distinct. */
  lemma KnownEntriesDistinct(on: seq<(string, Value)>)
    ensures Distinct(Keys(KnownEntries(on)))
  {
    var ks := Keys(KnownEntries(on));
    assert ks == ["push", "pull_request", "workflow_dispatch", "schedule", "repository_dispatch", "workflow_call"];
    forall i, j | 0 <= i < j < |ks| ensures ks[i] != ks[j] {
      assert |ks[i]| != |ks[j]|;
    }
  }

  /** The known entries follow the renaming table. */
  lemma KnownEntriesTable(on: seq<(string, Value)>)
    ensures |KnownEntries(on)| == |KnownTriggers|
    ensures forall i :: 0 <= i < |KnownTriggers| ==>
      KnownEntries(on)[i] == (KnownTriggers[i].1, IfTruthy(Get(on, KnownTriggers[i].0)))
    ensures Distinct(Keys(KnownEntries(on)))
  {
    KnownEntriesDistinct(on);
  }

  /** The entries of `on` whose key is not a known trigger, in order. */
  function Custom(on: seq<(string, Value)>): seq<(string, Value)>
  {
    if on == [] then []
    else
      var last := on[|on| - 1];
      Custom(on[..|on| - 1]) + (if IsKnownTrigger(last.0) then [] else [last])
  }

  /** Assigning the entries one after another into an object. */
  function PutAll(m: seq<(string, Value)>, es: seq<(string, Value)>): seq<(string, Value)>
  {
    if es == [] then m
    else
      var last := es[|es| - 1];
      Put(PutAll(m, es[..|es| - 1]), last.0, last.1)
  }

  /** `synthesizeTriggers()`: the known triggers under their target names,
      then every other trigger copied through under its own key. */
  function Triggers(on: seq<(string, Value)>): seq<(string, Value)>
  {
    PutAll(KnownPart(on), Custom(on))
  }

  /** After the assignments, a key holds the last value assigned to it, or
      what it held before. */
  lemma {:induction false} PutAllGet(m: seq<(string, Value)>, es: seq<(string, Value)>, k: string)
    requires Distinct(Keys(es))
    ensures Get(PutAll(m, es), k) == if k in Keys(es) then Get(es, k) else Get(m, k)
  {
    if es != [] {
      var init := es[..|es| - 1];
      var last := es[|es| - 1];
      assert es == init + [last];
      assert Keys(init) == Keys(es)[..|es| - 1];
      assert Distinct(Keys(init));
      PutGet(PutAll(m, init), last.0, last.1, k);
      GetSnoc(init, last, k);
      assert k in Keys(es) <==> k in Keys(init) || k == last.0;
      if k != last.0 {
        PutAllGet(m, init, k);
      }
    }
  }

  /** The keys after the assignments are the keys before and the keys assigned. */
  lemma {:induction false} PutAllKeys(m: seq<(string, Value)>, es: seq<(string, Value)>, k: string)
    ensures k in Keys(PutAll(m, es)) <==> k in Keys(m) || k in Keys(es)
  {
    if es != [] {
      var init := es[..|es| - 1];
      var last := es[|es| - 1];
      PutAllKeys(m, init, k);
      PutKeys(PutAll(m, init), last.0, last.1);
      assert Keys(init) == Keys(es)[..|es| - 1];
      assert k in Keys(es) <==> k in Keys(init) || k == last.0;
    }
  }

  /** The custom triggers are the entries of `on` not named like a known
      trigger. */
  lemma {:induction false} CustomKeys(on: seq<(string, Value)>, k: string)
    ensures k in Keys(Custom(on)) <==> k in Keys(on) && !IsKnownTrigger(k)
  {
    if on != [] {
      var init := on[..|on| - 1];
      var last := on[|on| - 1];
      assert on == init + [last];
      KeysSnoc(init, last);
      CustomKeys(init, k);
      assert k in Keys(on) <==> k in Keys(init) || k == last.0;
      if !IsKnownTrigger(last.0) {
        assert Custom(on) == Custom(init) + [last];
        KeysSnoc(Custom(init), last);
      } else {
        assert Custom(on) == Custom(init);
      }
    }
  }

  lemma {:induction false} CustomDistinct(on: seq<(string, Value)>)
    requires Distinct(Keys(on))
    ensures Distinct(Keys(Custom(on)))
  {
    if on != [] {
      var init := on[..|on| - 1];
      var last := on[|on| - 1];
      assert on == init + [last];
      KeysSnoc(init, last);
      DistinctSnoc(Keys(init), last.0);
      CustomDistinct(init);
      if !IsKnownTrigger(last.0) {
        CustomKeys(init, last.0);
        KeysSnoc(Custom(init), last);
        DistinctSnoc(Keys(Custom(init)), last.0);
      }
    }
  }

  /** A custom trigger keeps its value. */
  lemma {:induction false} CustomGet(on: seq<(string, Value)>, k: string)
    requires Distinct(Keys(on)) && k in Keys(Custom(on))
    ensures Get(Custom(on), k) == Get(on, k)
  {
    var init := on[..|on| - 1];
    var last := on[|on| - 1];
    var c := Custom(init);
    assert on == init + [last];
    KeysSnoc(init, last);
    DistinctSnoc(Keys(init), last.0);
    CustomDistinct(on);
    CustomKeys(on, k);
    CustomKeys(init, k);
    GetSnoc(init, last, k);
    if IsKnownTrigger(last.0) {
      assert Custom(on) == c;
      CustomGet(init, k);
    } else {
      assert Custom(on) == c + [last];
      KeysSnoc(c, last);
      GetSnoc(c, last, k);
      if k != last.0 {
        CustomGet(init, k);
      }
    }
  }

  /** Each known trigger that is present and truthy appears under its target
      name, and an absent or falsy one is left out, unless the caller also
      used the target name as a custom trigger (then the custom value wins, as
      in the source). */
  lemma TriggersKnown(on: seq<(string, Value)>, i: nat)
    requires Distinct(Keys(on)) && i < |KnownTriggers|
    requires !(KnownTriggers[i].1 in Keys(on) && !IsKnownTrigger(KnownTriggers[i].1))
    ensures Get(Triggers(on), KnownTriggers[i].1) == IfTruthy(Get(on, KnownTriggers[i].0))
  {
    var tgt := KnownTriggers[i].1;
    CustomKeys(on, tgt);
    CustomDistinct(on);
    PutAllGet(KnownPart(on), Custom(on), tgt);
    KnownEntriesTable(on);
    PresentGetAt(KnownEntries(on), i);
  }

  /** The renaming table: pullRequest, workflowDispatch, repositoryDispatch
      and workflowCall get their snake-case names; push and schedule keep
      theirs. */
  lemma TriggerTable()
    ensures KnownTriggers[0] == ("push", "push") && KnownTriggers[3] == ("schedule", "schedule")
    ensures KnownTriggers[1] == ("pullRequest", "pull_request")
    ensures KnownTriggers[2] == ("workflowDispatch", "workflow_dispatch")
    ensures KnownTriggers[4] == ("repositoryDispatch", "repository_dispatch")
    ensures KnownTriggers[5] == ("workflowCall", "workflow_call")
    ensures forall j :: 0 <= j < |KnownTriggers| ==> IsKnownTrigger(KnownTriggers[j].0)
  {
  }

  /** A trigger outside the six known names is copied through verbatim. */
  lemma TriggersCustom(on: seq<(string, Value)>, k: string)
    requires Distinct(Keys(on))
    requires k in Keys(on) && !IsKnownTrigger(k)
    ensures Get(Triggers(on), k) == Get(on, k)
  {
    CustomKeys(on, k);
    CustomDistinct(on);
    CustomGet(on, k);
    PutAllGet(KnownPart(on), Custom(on), k);
  }

  /** Nothing else appears: every output key is a target name or a custom
      trigger of the caller. */
  lemma TriggersKeys(on: seq<(string, Value)>, k: string)
    requires k in Keys(Triggers(on))
    ensures (exists j :: 0 <= j < |KnownTriggers| && KnownTriggers[j].1 == k)
            || (k in Keys(on) && !IsKnownTrigger(k))
  {
    PutAllKeys(KnownPart(on), Custom(on), k);
    CustomKeys(on, k);
    var e := KnownEntries(on);
    PresentKeys(e);
    KnownEntriesTable(on);
    if k in Keys(KnownPart(on)) {
      var t :| 0 <= t < |Present(e)| && Present(e)[t].0 == k;
      assert k in Keys(e);
      var j :| 0 <= j < |Keys(e)| && Keys(e)[j] == k;
      assert KnownTriggers[j].1 == k;
    }
  }

  /** `synthesizeTriggers()` as the source writes it: the six known triggers
      in turn, then a loop over the entries of `on`. */
  method SynthesizeTriggers(on: seq<(string, Value)>) returns (triggers: seq<(string, Value)>)
    ensures triggers == Triggers(on)
  {
    triggers := SynthesizeKnownTriggers(on);
    var i := 0;
    while i < |on|
      invariant 0 <= i <= |on|
      invariant triggers == PutAll(KnownPart(on), Custom(on[..i]))
    {
      var key := on[i].0;
      var value := on[i].1;
      assert on[..i + 1] == on[..i] + [on[i]];
      assert on[..i + 1][..i] == on[..i];
      if !IsKnownTrigger(key) {
        assert Custom(on[..i + 1]) == Custom(on[..i]) + [(key, value)];
        triggers := Put(triggers, key, value);
      } else {
        assert Custom(on[..i + 1]) == Custom(on[..i]);
      }
      i := i + 1;
    }
    assert on[..|on|] == on;
  }

  /** The six `if`s at the start of `synthesizeTriggers()`. */
  method SynthesizeKnownTriggers(on: seq<(string, Value)>) returns (triggers: seq<(string, Value)>)
    ensures triggers == KnownPart(on)
  {
    ghost var e := KnownEntries(on);
    triggers := [];
    var v := Get(on, "push");
    KnownStep(on, 0, triggers);
    if v.Some? && Truthy(v.value) {
      triggers := Put(triggers, "push", v.value);
    }
    v := Get(on, "pullRequest");
    KnownStep(on, 1, triggers);
    if v.Some? && Truthy(v.value) {
      triggers := Put(triggers, "pull_request", v.value);
    }
    v := Get(on, "workflowDispatch");
    KnownStep(on, 2, triggers);
    if v.Some? && Truthy(v.value) {
      triggers := Put(triggers, "workflow_dispatch", v.value);
    }
    v := Get(on, "schedule");
    KnownStep(on, 3, triggers);
    if v.Some? && Truthy(v.value) {
      triggers := Put(triggers, "schedule", v.value);
    }
    v := Get(on, "repositoryDispatch");
    KnownStep(on, 4, triggers);
    if v.Some? && Truthy(v.value) {
      triggers := Put(triggers, "repository_dispatch", v.value);
    }
    v := Get(on, "workflowCall");
    KnownStep(on, 5, triggers);
    if v.Some? && Truthy(v.value) {
      triggers := Put(triggers, "workflow_call", v.value);
    }
    assert e[..6] == e;
  }

  /** One `if` of `synthesizeTriggers`: the `j`-th known trigger is added
      when present and truthy; the object's keys so far are earlier target
      names, so the assignment appends. */
  lemma KnownStep(on: seq<(string, Value)>, j: nat, before: seq<(string, Value)>)
    requires j < |KnownTriggers| && before == Present(KnownEntries(on)[..j])
    ensures var x := KnownEntries(on)[j];
      (if x.1.Some? then Put(before, x.0, x.1.value) else before) == Present(KnownEntries(on)[..j + 1])
  {
    var e := KnownEntries(on);
    KnownEntriesDistinct(on);
    assert e[..j + 1] == e[..j] + [e[j]];
    assert e[j].0 !in Keys(e[..j]);
    PresentSnoc(e[..j], e[j]);
  }

  /** The file name of the written workflow: each maximal run of white space
      in the name becomes one `_`, then `.yml`. */
  function FileName(name: string): string
  {
    UnderscoreRuns(name) + ".yml"
  }

  /** The file name holds no white space and ends in `.yml`; a name without
      white space is kept as it is. */
  lemma FileNameShape(name: string)
    ensures forall i :: 0 <= i < |FileName(name)| ==> !IsWhitespace(FileName(name)[i])
    ensures |FileName(name)| >= 4 && FileName(name)[|FileName(name)| - 4..] == ".yml"
    ensures (forall i :: 0 <= i < |name| ==> !IsWhitespace(name[i])) ==> FileName(name) == name + ".yml"
  {
    UnderscoreRunsNoWhitespace(name);
    if forall i :: 0 <= i < |name| ==> !IsWhitespace(name[i]) {
      UnderscoreRunsIdentity(name);
    }
  }

  /** The text written before the emitted document. */
  const Header := "# this file was generated by a tool. DO NOT EDIT\n\n"

  /** The top-level target keys, in emission order. */
  const KeyOrder: seq<string> := ["name", "on", "env", "defaults", "permissions", "concurrency", "jobs"]

  /** The workflow document, given its `jobs` object. */
  function Document(p: WorkflowProps, jobs: seq<(string, Value)>): seq<(string, Value)>
  {
    Present(DocumentEntries(p, Triggers(p.on), jobs))
  }

  lemma KeyOrderDistinct()
    ensures Distinct(KeyOrder)
  {
    forall i, j | 0 <= i < j < |KeyOrder| ensures KeyOrder[i] != KeyOrder[j] {
      assert |KeyOrder[i]| != |KeyOrder[j]| || KeyOrder[i][0] != KeyOrder[j][0];
    }
  }

  /** The candidate top-level entries, given the translated triggers and the
      `jobs` object: every top-level key, in the fixed order. */
  function DocumentEntries(p: WorkflowProps, triggers: seq<(string, Value)>, jobs: seq<(string, Value)>): (e: seq<(string, Option<Value>)>)
    ensures Keys(e) == KeyOrder
  {
    [("name", Some(Str(p.name))), ("on", Some(Obj(triggers))),
     ("env", p.env), ("defaults", p.defaults), ("permissions", p.permissions),
     ("concurrency", p.concurrency), ("jobs", Some(Obj(jobs)))]
  }

  /** `name` and `on` come first and always, `jobs` last and always, and the
      four optional keys in between in the fixed order and only when present. */
  lemma DocumentShape(p: WorkflowProps, triggers: seq<(string, Value)>, jobs: seq<(string, Value)>)
    ensures var d := Present(DocumentEntries(p, triggers, jobs));
      && |d| >= 3 && d[0] == ("name", Str(p.name)) && d[1] == ("on", Obj(triggers))
      && d[|d| - 1] == ("jobs", Obj(jobs))
      && IsSubseq(Keys(d), KeyOrder) && Distinct(Keys(d))
  {
    var e := DocumentEntries(p, triggers, jobs);
    KeyOrderDistinct();
    PresentKeys(e);
    PresentDistinct(e);
    var head, mid, last := e[..2], e[2..6], [e[6]];
    assert e == head + mid + last;
    PresentConcat(head + mid, last);
    PresentConcat(head, mid);
    assert head[1..][1..] == [];
    assert Present(head) == [("name", Str(p.name)), ("on", Obj(triggers))];
    assert last[1..] == [];
    assert Present(last) == [("jobs", Obj(jobs))];
  }

  /** The optional top-level keys hold exactly the optional attributes. */
  lemma DocumentFields(p: WorkflowProps, triggers: seq<(string, Value)>, jobs: seq<(string, Value)>)
    ensures var d := Present(DocumentEntries(p, triggers, jobs));
      && Get(d, "env") == p.env && Get(d, "defaults") == p.defaults
      && Get(d, "permissions") == p.permissions && Get(d, "concurrency") == p.concurrency
      && Get(d, "name") == Some(Str(p.name)) && Get(d, "on") == Some(Obj(triggers))
      && Get(d, "jobs") == Some(Obj(jobs))
  {
    var e := DocumentEntries(p, triggers, jobs);
    KeyOrderDistinct();
    PresentGetAt(e, 0);
    PresentGetAt(e, 1);
    PresentGetAt(e, 2);
    PresentGetAt(e, 3);
    PresentGetAt(e, 4);
    PresentGetAt(e, 5);
    PresentGetAt(e, 6);
  }
}
