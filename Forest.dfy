/** The constructs of a program as it builds them: the constructors of
    `Workflow`, `Job` and `Step`, `Step.fromAction`, the `addStep` and
    `addJob` guards, `getJob`, the validators as they run, tree validation,
    and the two synth methods (the plain-object one of lib/workflow.ts and
    the validate-then-write one of src/workflow.ts). */
module Forest {
  import opened Wrappers
  import opened Assoc
  import opened Doc
  import opened Tree
  import Text
  import Step
  import Job
  import Workflow
  import ActionRef

  /** The scan of `jobIdMap.entries()` for the first key bound to `job`,
      falling back to the construct id `id`. */
  method DeclaredIdOf(m: seq<(string, NodeId)>, job: NodeId, id: string) returns (r: string)
    ensures r == DeclaredId(m, job, id)
  {
    r := id;
    var u := 0;
    while u < |m|
      invariant 0 <= u <= |m|
      invariant forall v | 0 <= v < u :: m[v].1 != job
    {
      if m[u].1 == job {
        r := m[u].0;
        FirstKeyAt(m, job, u);
        return;
      }
      u := u + 1;
    }
  }

  /** The duplicate-id loop of the workflow validator: a `Set` of the keys
      seen so far, and one error per key already in it. */
  method DuplicateCheck(keys: seq<string>) returns (errors: seq<string>)
    ensures errors == Workflow.DuplicateErrors(keys)
  {
    var seen: set<string> := {};
    errors := [];
    var k := 0;
    while k < |keys|
      invariant 0 <= k <= |keys|
      invariant forall x :: x in seen <==> x in keys[..k]
      invariant errors == Workflow.DuplicateErrors(keys[..k])
    {
      var id := keys[k];
      if id in seen {
        errors := errors + [Workflow.DuplicateJobId(id)];
      }
      seen := seen + {id};
      assert keys[..k + 1][..k] == keys[..k];
      k := k + 1;
    }
    assert keys[..k] == keys;
  }

  /** The `needs` loop of the job validator: one error per entry missing from
      `ids`, in order. */
  method NeedsCheck(needs: seq<string>, ids: set<string>) returns (errors: seq<string>)
    ensures errors == Job.MissingNeeds(needs, ids)
  {
    errors := [];
    var k := 0;
    while k < |needs|
      invariant 0 <= k <= |needs|
      invariant errors == Job.MissingNeeds(needs[..k], ids)
    {
      if needs[k] !in ids {
        errors := errors + [Job.MissingNeed(needs[k])];
      }
      assert needs[..k + 1][..k] == needs[..k];
      k := k + 1;
    }
    assert needs[..k] == needs;
  }

  /** The loop of the job validator over the children `cs` of a workflow with
      registry `m`: the declared id of each `Job` child, added to a `Set`. */
  method CollectIds(nodes: seq<Node>, m: seq<(string, NodeId)>, cs: seq<NodeId>) returns (ids: set<string>)
    requires InArena(nodes, cs)
    ensures ids == SetOf(DeclaredIds(nodes, m, Filter(nodes, cs, JobClass)))
  {
    ids := {};
    ghost var js: seq<NodeId> := [];
    var k := 0;
    while k < |cs|
      invariant 0 <= k <= |cs|
      invariant js == Filter(nodes, cs[..k], JobClass)
      invariant ids == SetOf(DeclaredIds(nodes, m, js))
    {
      var c := cs[k];
      FilterSnoc(nodes, cs, k, JobClass);
      if nodes[c].kind.JobNode? {
        var id := DeclaredIdOf(m, c, nodes[c].id);
        DeclaredIdsSnoc(nodes, m, js, c);
        SetOfSnoc(DeclaredIds(nodes, m, js), id);
        ids := ids + {id};
        js := js + [c];
      }
      k := k + 1;
    }
    assert cs[..k] == cs;
  }

  /** The loop of the workflow synth over the children `cs` of a workflow
      with registry `m`: each `Job` child's document assigned into the `jobs`
      object under its declared id. */
  method FillJobs(nodes: seq<Node>, m: seq<(string, NodeId)>, cs: seq<NodeId>) returns (obj: seq<(string, Value)>)
    requires Valid(nodes) && InArena(nodes, cs)
    ensures obj == JobsObject(nodes, m, Filter(nodes, cs, JobClass))
  {
    obj := [];
    ghost var js: seq<NodeId> := [];
    var k := 0;
    while k < |cs|
      invariant 0 <= k <= |cs|
      invariant js == Filter(nodes, cs[..k], JobClass)
      invariant obj == JobsObject(nodes, m, js)
    {
      var c := cs[k];
      FilterSnoc(nodes, cs, k, JobClass);
      if nodes[c].kind.JobNode? {
        var id := DeclaredIdOf(m, c, nodes[c].id);
        JobsObjectSnoc(nodes, m, js, c);
        obj := Put(obj, id, Obj(JobDoc(nodes, c)));
        js := js + [c];
      }
      k := k + 1;
    }
    assert cs[..k] == cs;
  }

  class Forest {
    /** Every construct created so far, in creation order. */
    var nodes: seq<Node>

    predicate Valid()
      reads this
    {
      Tree.Valid(nodes)
    }

    constructor ()
      ensures Valid() && nodes == []
    {
      nodes := [];
    }

    /** `new Workflow(props)`: a root with the empty id, no children, an empty
        registry and the workflow validator. */
    method NewWorkflow(p: Workflow.WorkflowProps) returns (w: NodeId)
      requires Valid()
      modifies this
      ensures Valid()
      ensures w == |old(nodes)|
      ensures nodes == old(nodes) + [Node("", None, [], [CheckWorkflow], WorkflowNode(p, []))]
    {
      var n := Node("", None, [], [CheckWorkflow], WorkflowNode(p, []));
      AppendRootValid(nodes, n);
      w := |nodes|;
      nodes := nodes + [n];
    }

    /** `new Job(scope, id, props)`: appended to the children of `scope` with
        the job validator. */
    method NewJob(scope: NodeId, id: string, p: Job.JobProps) returns (j: NodeId)
      requires Valid() && scope < |nodes|
      modifies this
      ensures Valid()
      ensures j == |old(nodes)|
      ensures nodes == Attach(old(nodes), scope, Node(id, Some(scope), [], [CheckJob], JobNode(p)))
    {
      var n := Node(id, Some(scope), [], [CheckJob], JobNode(p));
      AttachValid(nodes, scope, n);
      j := |nodes|;
      nodes := Attach(nodes, scope, n);
    }

    /** `new Step(scope, id, props?)`: appended to the children of `scope`
        with the step validator; without props every attribute is undefined. */
    method NewStep(scope: NodeId, id: string, p: Option<Step.StepProps>) returns (s: NodeId)
      requires Valid() && scope < |nodes|
      modifies this
      ensures Valid()
      ensures s == |old(nodes)|
      ensures var props := if p.Some? then p.value else Step.Unset;
        nodes == Attach(old(nodes), scope, Node(id, Some(scope), [], [CheckStep], StepNode(props)))
      ensures AddStep(scope, s) == Success(s)
    {
      var props := if p.Some? then p.value else Step.Unset;
      var n := Node(id, Some(scope), [], [CheckStep], StepNode(props));
      AttachValid(nodes, scope, n);
      s := |nodes|;
      nodes := Attach(nodes, scope, n);
    }

    /** `Step.fromAction(scope, id, action, props?)`: a step that uses the
        action, and whose validator therefore reports nothing. */
    method FromAction(scope: NodeId, id: string, a: ActionRef.Action, p: Option<Step.ActionStepProps>)
      returns (s: NodeId)
      requires Valid() && scope < |nodes|
      modifies this
      ensures Valid()
      ensures s == |old(nodes)|
      ensures nodes == Attach(old(nodes), scope,
        Node(id, Some(scope), [], [CheckStep], StepNode(Step.FromAction(a, p))))
      ensures ValidatorErrors(nodes, s, CheckStep) == []
    {
      s := NewStep(scope, id, Some(Step.FromAction(a, p)));
      Step.FromActionValid(a, p);
    }

    /** `job.addStep(step)`: returns the step when its scope is the job, and
        throws otherwise; it never changes the tree. */
    function AddStep(job: NodeId, step: NodeId): (r: Result<NodeId>)
      reads this
      requires step < |nodes|
      ensures r.Success? <==> nodes[step].scope == Some(job)
      ensures r.Success? ==> r.value == step
      ensures r.Failure? ==> r.error == StepMisplaced(nodes[step].id)
    {
      if nodes[step].scope == Some(job) then Success(step) else Failure(StepMisplaced(nodes[step].id))
    }

    /** `workflow.getJob(id)`: the job registered under `id`, which is always a
        `Job` child of the workflow. */
    function GetJob(w: NodeId, id: string): (r: Option<NodeId>)
      reads this
      requires Valid() && w < |nodes| && nodes[w].kind.WorkflowNode?
      ensures r.Some? <==> id in Keys(nodes[w].kind.jobIdMap)
      ensures r.Some? ==> r.value in nodes[w].children && r.value < |nodes| && nodes[r.value].kind.JobNode?
    {
      assert NodeValid(nodes, w);
      var m := nodes[w].kind.jobIdMap;
      GetPresent(m, id);
      GetMember(m, id);
      Get(m, id)
    }

    /** `workflow.addJob(id, job)`: registers or re-registers `id` for a job
        whose scope is the workflow, and throws, changing nothing, for any
        other job. */
    method AddJob(w: NodeId, id: string, j: NodeId) returns (r: Result<NodeId>)
      requires Valid() && w < |nodes| && nodes[w].kind.WorkflowNode?
      requires j < |nodes| && nodes[j].kind.JobNode?
      modifies this
      ensures Valid()
      ensures r.Success? <==> old(nodes)[j].scope == Some(w)
      ensures r.Success? ==> r.value == j && nodes == Register(old(nodes), w, id, j)
      ensures r.Success? ==> GetJob(w, id) == Some(j)
      ensures r.Success? ==> forall k | k != id :: GetJob(w, k) == old(GetJob(w, k))
      ensures r.Failure? ==> r.error == JobMisplaced(id) && nodes == old(nodes)
    {
      if nodes[j].scope != Some(w) {
        return Failure(JobMisplaced(id));
      }
      var m := nodes[w].kind.jobIdMap;
      RegisterValid(nodes, w, id, j);
      nodes := Register(nodes, w, id, j);
      assert nodes[w].kind.jobIdMap == Put(m, id, j);
      forall k ensures Get(Put(m, id, j), k) == if k == id then Some(j) else Get(m, k) {
        PutGet(m, id, j, k);
      }
      r := Success(j);
    }

    /** The job validator: the runs-on rule, the step rule, then, for a job
        whose scope is a workflow and whose `needs` is not empty, one error
        per entry missing from the declared ids of the workflow's jobs. */
    method ValidateJob(j: NodeId) returns (errors: seq<string>)
      requires Valid() && j < |nodes| && nodes[j].kind.JobNode?
      ensures errors == Job.Errors(nodes[j].kind.job, |Steps(nodes, j)|, SiblingIds(nodes, j))
    {
      var p := nodes[j].kind.job;
      var runsOn: seq<string> := if Job.RunsOnMissing(p.runsOn) then [Job.NoRunsOn] else [];
      var steps: seq<string> := if |Steps(nodes, j)| == 0 then [Job.NoSteps] else [];
      var needs: seq<string> := [];
      assert NodeValid(nodes, j);
      if p.needs.Some? && |p.needs.value| > 0 && nodes[j].scope.Some?
         && nodes[nodes[j].scope.value].kind.WorkflowNode? {
        var w := nodes[j].scope.value;
        assert NodeValid(nodes, w);
        var ids := CollectIds(nodes, nodes[w].kind.jobIdMap, nodes[w].children);
        assert SiblingIds(nodes, j) == Some(ids);
        needs := NeedsCheck(p.needs.value, ids);
      }
      errors := runsOn + steps + needs;
    }

    /** The workflow validator: the name, trigger and job-count rules, then
        the duplicate-id loop over the registry, which a `Map`'s distinct
        keys never trip. */
    method ValidateWorkflow(w: NodeId) returns (errors: seq<string>)
      requires Valid() && w < |nodes| && nodes[w].kind.WorkflowNode?
      ensures errors == ValidatorErrors(nodes, w, CheckWorkflow)
      ensures errors == Workflow.Errors(nodes[w].kind.workflow.name, nodes[w].kind.workflow.on, |Jobs(nodes, w)|)
    {
      var p := nodes[w].kind.workflow;
      var keys := Keys(nodes[w].kind.jobIdMap);
      errors := [];
      if Text.Blank(p.name) {
        errors := errors + [Workflow.NoName];
      }
      if p.on == [] {
        errors := errors + [Workflow.NoTrigger];
      }
      if |Jobs(nodes, w)| == 0 {
        errors := errors + [Workflow.NoJob];
      }
      var duplicates := DuplicateCheck(keys);
      errors := errors + duplicates;
      WorkflowErrorsReachable(nodes, w);
    }

    /** Runs one validator of node `i`. */
    method RunValidator(i: NodeId, v: Validator) returns (errors: seq<string>)
      requires Valid() && i < |nodes|
      ensures errors == ValidatorErrors(nodes, i, v)
    {
      match v
      case CheckStep =>
        errors := if nodes[i].kind.StepNode? then Step.Errors(nodes[i].kind.step) else [];
      case CheckJob =>
        if nodes[i].kind.JobNode? {
          errors := ValidateJob(i);
        } else {
          errors := [];
        }
      case CheckWorkflow =>
        if nodes[i].kind.WorkflowNode? {
          errors := ValidateWorkflow(i);
        } else {
          errors := [];
        }
    }

    /** The validators registered on node `i`, run in registration order. */
    method ValidateOwn(i: NodeId) returns (errors: seq<string>)
      requires Valid() && i < |nodes|
      ensures errors == OwnErrors(nodes, i, nodes[i].validators)
    {
      var vs := nodes[i].validators;
      errors := [];
      var k := 0;
      while k < |vs|
        invariant 0 <= k <= |vs|
        invariant errors == OwnErrors(nodes, i, vs[..k])
      {
        var e := RunValidator(i, vs[k]);
        OwnErrorsSnoc(nodes, i, vs, k);
        errors := errors + e;
        k := k + 1;
      }
      assert vs[..k] == vs;
    }

    /** `node.validate()` on node `i`: its own validators, then each child
        subtree in child order. */
    method Validate(i: NodeId) returns (errors: seq<string>)
      requires Valid() && i < |nodes|
      ensures errors == TreeErrors(nodes, i)
      decreases |nodes| - i
    {
      var ns := nodes;
      assert NodeValid(ns, i);
      ghost var own := Reports(ns, |ns|);
      var mine := ValidateOwn(i);
      ReportsAt(ns, |ns|, i);
      var cs := ns[i].children;
      var below := [];
      var k := 0;
      while k < |cs|
        invariant 0 <= k <= |cs|
        invariant ChildrenAfter(ns, i, cs[..k])
        invariant below == CollectChildren(ns, own, i, cs[..k])
      {
        var e := Validate(cs[k]);
        CollectChildrenSnoc(ns, own, i, cs, k);
        below := below + e;
        k := k + 1;
      }
      assert cs[..k] == cs;
      errors := mine + below;
    }

    /** `synth()` of lib/workflow.ts: the translated triggers, and the `jobs`
        object filled child by child under each job's declared id. */
    method SynthWorkflow(w: NodeId) returns (doc: seq<(string, Value)>)
      requires Valid() && w < |nodes| && nodes[w].kind.WorkflowNode?
      ensures doc == WorkflowDoc(nodes, w)
    {
      assert NodeValid(nodes, w);
      var p := nodes[w].kind.workflow;
      var m := nodes[w].kind.jobIdMap;
      var triggers := Workflow.SynthesizeTriggers(p.on);
      var jobsObj := FillJobs(nodes, m, nodes[w].children);
      doc := Present(Workflow.DocumentEntries(p, triggers, jobsObj));
    }

    /** `synth()` of src/workflow.ts, up to the file write: a tree with errors
        is refused with all its errors, one per line; otherwise the result is
        the file name and the text to write, the header followed by the
        emitted document. */
    method Synthesize(w: NodeId, emit: Value -> string) returns (r: Result<(string, string)>)
      requires Valid() && w < |nodes| && nodes[w].kind.WorkflowNode?
      ensures r.Failure? <==> TreeErrors(nodes, w) != []
      ensures r.Failure? ==> r.error == ValidationFailure(TreeErrors(nodes, w))
      ensures r.Success? ==>
        r.value == (Workflow.FileName(nodes[w].kind.workflow.name), Workflow.Header + emit(Obj(WorkflowDoc(nodes, w))))
    {
      var errors := Validate(w);
      if |errors| > 0 {
        return Failure(ValidationFailure(errors));
      }
      var doc := SynthWorkflow(w);
      r := Success((Workflow.FileName(nodes[w].kind.workflow.name), Workflow.Header + emit(Obj(doc))));
    }
  }

  /** The message of the error `synth()` throws for a tree with errors. */
  function ValidationFailure(errors: seq<string>): string
  {
    "Validation errors:\n" + Text.Join(errors, '\n')
  }
}
