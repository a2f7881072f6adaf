/** The part of the construct tree the builder relies on, as an arena of
    nodes in creation order: a node's identity is its position, its scope is
    the position of its parent (none for a workflow, which is a root), its
    children are listed in the order they were constructed, and it carries
    the validators registered on it. This module holds the pure views of the
    tree: the `steps` and `jobs` getters, a job's declared id, the sibling ids
    the job validator resolves `needs` against, the validators themselves,
    tree validation and the documents the synth methods build. */
module Tree {
  import opened Wrappers
  import opened Assoc
  import opened Doc
  import Step
  import Job
  import Workflow
  import Text

  type NodeId = nat

  /** The validator a construct registers on its own node in its constructor. */
  datatype Validator = CheckStep | CheckJob | CheckWorkflow

  /** What a node is, with the attributes of the construct; a workflow also
      holds its `jobIdMap` registry (declared id to job, in insertion order). */
  datatype Kind =
    | StepNode(step: Step.StepProps)
    | JobNode(job: Job.JobProps)
    | WorkflowNode(workflow: Workflow.WorkflowProps, jobIdMap: seq<(string, NodeId)>)

  datatype Node = Node(
    id: string,
    scope: Option<NodeId>,
    children: seq<NodeId>,
    validators: seq<Validator>,
    kind: Kind)

  /** The one validator each construct's constructor registers. */
  function OwnValidator(k: Kind): Validator
  {
    match k
    case StepNode(_) => CheckStep
    case JobNode(_) => CheckJob
    case WorkflowNode(_, _) => CheckWorkflow
  }

  /** A parent is created before its children and lists each of them once;
      a child's scope is the node that lists it; a node carries the validator
      its constructor registered; registry keys are distinct, as the keys of
      a `Map` are, and `addJob` only ever registers `Job` children. */
  predicate NodeValid(nodes: seq<Node>, i: nat)
    requires i < |nodes|
  {
    var n := nodes[i];
    && (n.scope.Some? ==> n.scope.value < i && i in nodes[n.scope.value].children)
    && (forall t | 0 <= t < |n.children| :: i < n.children[t] < |nodes| && nodes[n.children[t]].scope == Some(i))
    && Distinct(n.children)
    && n.validators == [OwnValidator(n.kind)]
    && (n.kind.WorkflowNode? ==> RegistryValid(nodes, n))
  }

  predicate RegistryValid(nodes: seq<Node>, n: Node)
    requires n.kind.WorkflowNode?
  {
    var m := n.kind.jobIdMap;
    && Distinct(Keys(m))
    && forall e | e in m :: e.1 in n.children && e.1 < |nodes| && nodes[e.1].kind.JobNode?
  }

  predicate Valid(nodes: seq<Node>)
  {
    forall i | 0 <= i < |nodes| :: NodeValid(nodes, i)
  }

  /** The classes `instanceof` tells apart among children. */
  datatype Class = StepClass | JobClass

  predicate IsA(n: Node, c: Class)
  {
    match c
    case StepClass => n.kind.StepNode?
    case JobClass => n.kind.JobNode?
  }

  predicate InArena(nodes: seq<Node>, cs: seq<NodeId>)
  {
    forall t | 0 <= t < |cs| :: cs[t] < |nodes|
  }

  /** `children.filter(child => child instanceof C)`: the children of class
      `c`, in the order of `cs`. */
  function Filter(nodes: seq<Node>, cs: seq<NodeId>, c: Class): (r: seq<NodeId>)
    requires InArena(nodes, cs)
    ensures InArena(nodes, r)
    ensures forall t | 0 <= t < |r| :: IsA(nodes[r[t]], c)
    ensures forall x | x in r :: x in cs && IsA(nodes[x], c)
  {
    if cs == [] then []
    else
      var last := cs[|cs| - 1];
      Filter(nodes, cs[..|cs| - 1], c) + (if IsA(nodes[last], c) then [last] else [])
  }

  /** The `steps` getter (lib/job.ts, src/job.ts). */
  function Steps(nodes: seq<Node>, j: NodeId): (r: seq<NodeId>)
    requires Valid(nodes) && j < |nodes|
    ensures InArena(nodes, r)
    ensures forall x | x in r :: x in nodes[j].children && x < |nodes| && nodes[x].kind.StepNode?
  {
    assert NodeValid(nodes, j);
    Filter(nodes, nodes[j].children, StepClass)
  }

  /** The `jobs` getter (lib/workflow.ts, src/workflow.ts). */
  function Jobs(nodes: seq<Node>, w: NodeId): (r: seq<NodeId>)
    requires Valid(nodes) && w < |nodes|
    ensures InArena(nodes, r)
    ensures forall x | x in r :: x in nodes[w].children && x < |nodes| && nodes[x].kind.JobNode?
  {
    assert NodeValid(nodes, w);
    Filter(nodes, nodes[w].children, JobClass)
  }

  /** A child is kept exactly when it is of the class; other children are
      ignored. */
  lemma {:induction false} FilterMembers(nodes: seq<Node>, cs: seq<NodeId>, c: Class, x: NodeId)
    requires InArena(nodes, cs)
    ensures x in Filter(nodes, cs, c) <==> x in cs && x < |nodes| && IsA(nodes[x], c)
  {
    if cs != [] {
      var init := cs[..|cs| - 1];
      assert cs == init + [cs[|cs| - 1]];
      FilterMembers(nodes, init, c, x);
    }
  }

  /** `children.indexOf(x)`: the first position of `x`. */
  function IndexOf(s: seq<NodeId>, x: NodeId): (k: nat)
    requires x in s
    ensures k < |s| && s[k] == x
    ensures forall u | 0 <= u < k :: s[u] != x
  {
    if s[0] == x then 0 else 1 + IndexOf(s[1..], x)
  }

  lemma IndexOfSnoc(init: seq<NodeId>, last: NodeId, x: NodeId)
    requires x in init
    ensures IndexOf(init + [last], x) == IndexOf(init, x)
  {
    var k := IndexOf(init, x);
    var k' := IndexOf(init + [last], x);
    assert (init + [last])[k] == x;
    assert k' <= k;
    assert init[k'] == (init + [last])[k'];
  }

  /** Over distinct children, the filtered children already stand in
      increasing `indexOf` order, so the `sort` that the synth methods apply
      to them leaves them as they are. */
  lemma {:induction false} FilterOrder(nodes: seq<Node>, cs: seq<NodeId>, c: Class)
    requires InArena(nodes, cs) && Distinct(cs)
    ensures forall a, b | 0 <= a < b < |Filter(nodes, cs, c)| ::
      IndexOf(cs, Filter(nodes, cs, c)[a]) < IndexOf(cs, Filter(nodes, cs, c)[b])
  {
    if cs != [] {
      var init := cs[..|cs| - 1];
      var last := cs[|cs| - 1];
      assert cs == init + [last];
      DistinctSnoc(init, last);
      FilterOrder(nodes, init, c);
      var r0 := Filter(nodes, init, c);
      assert forall a, b | 0 <= a < b < |r0| :: IndexOf(init, r0[a]) < IndexOf(init, r0[b]);
      OrderSnoc(init, last, r0, if IsA(nodes[last], c) then [last] else []);
    }
  }

  /** Appending a new last element keeps increasing positions increasing. */
  lemma OrderSnoc(init: seq<NodeId>, last: NodeId, r0: seq<NodeId>, extra: seq<NodeId>)
    requires last !in init && (forall x | x in r0 :: x in init) && (extra == [] || extra == [last])
    requires forall a, b | 0 <= a < b < |r0| :: IndexOf(init, r0[a]) < IndexOf(init, r0[b])
    ensures var r := r0 + extra;
      forall a, b | 0 <= a < b < |r| :: IndexOf(init + [last], r[a]) < IndexOf(init + [last], r[b])
  {
    var cs := init + [last];
    var r := r0 + extra;
    forall a, b | 0 <= a < b < |r| ensures IndexOf(cs, r[a]) < IndexOf(cs, r[b]) {
      assert r[a] == r0[a] && r[a] in init;
      IndexOfSnoc(init, last, r[a]);
      if b < |r0| {
        assert r[b] == r0[b] && r[b] in init;
        IndexOfSnoc(init, last, r[b]);
      }
    }
  }

  /** The first registry key bound to `job`, as the scan over
      `jobIdMap.entries()` that stops at the first match finds it. */
  function FirstKeyOf(m: seq<(string, NodeId)>, job: NodeId): (r: Option<string>)
    ensures r.None? <==> forall u | 0 <= u < |m| :: m[u].1 != job
  {
    if m == [] then None
    else if m[0].1 == job then Some(m[0].0)
    else
      assert forall u | 1 <= u < |m| :: m[u] == m[1..][u - 1];
      FirstKeyOf(m[1..], job)
  }

  /** The scan stops at the first entry bound to the job. */
  lemma {:induction false} FirstKeyAt(m: seq<(string, NodeId)>, job: NodeId, t: nat)
    requires t < |m| && m[t].1 == job
    requires forall u | 0 <= u < t :: m[u].1 != job
    ensures FirstKeyOf(m, job) == Some(m[t].0)
  {
    if t > 0 {
      FirstKeyAt(m[1..], job, t - 1);
    }
  }

  /** With distinct keys, `getJob` on the key the scan finds gives the job
      back. */
  lemma {:induction false} FirstKeyResolves(m: seq<(string, NodeId)>, job: NodeId)
    requires Distinct(Keys(m)) && FirstKeyOf(m, job).Some?
    ensures Get(m, FirstKeyOf(m, job).value) == Some(job)
  {
    if m[0].1 != job {
      assert Keys(m)[1..] == Keys(m[1..]);
      assert FirstKeyOf(m[1..], job).Some?;
      FirstKeyResolves(m[1..], job);
      var k := FirstKeyOf(m, job).value;
      assert k in Keys(m[1..]) by { GetPresent(m[1..], k); }
      assert m[0].0 != k by {
        var u :| 0 <= u < |Keys(m[1..])| && Keys(m[1..])[u] == k;
        assert Keys(m)[0] != Keys(m)[u + 1];
      }
    }
  }

  /** A job's declared id: the first registry key bound to it, or its
      construct id when it is not registered. */
  function DeclaredId(m: seq<(string, NodeId)>, job: NodeId, id: string): string
  {
    match FirstKeyOf(m, job)
    case Some(k) => k
    case None => id
  }

  /** The declared ids of `js`, in order. */
  function DeclaredIds(nodes: seq<Node>, m: seq<(string, NodeId)>, js: seq<NodeId>): (r: seq<string>)
    requires InArena(nodes, js)
    ensures |r| == |js|
    ensures forall t | 0 <= t < |js| :: r[t] == DeclaredId(m, js[t], nodes[js[t]].id)
  {
    if js == [] then []
    else
      var last := js[|js| - 1];
      DeclaredIds(nodes, m, js[..|js| - 1]) + [DeclaredId(m, last, nodes[last].id)]
  }

  /** The elements of `s` as a set, as the validator's `Set` collects them. */
  function SetOf(s: seq<string>): (r: set<string>)
    ensures forall x :: x in r <==> x in s
  {
    if s == [] then {} else SetOf(s[..|s| - 1]) + {s[|s| - 1]}
  }

  /** The ids the job validator resolves `needs` against: the declared ids of
      the `Job` children of the job's scope when that scope is a workflow, and
      nothing (the check is skipped) otherwise. */
  function SiblingIds(nodes: seq<Node>, j: NodeId): Option<set<string>>
    requires Valid(nodes) && j < |nodes|
  {
    assert NodeValid(nodes, j);
    match nodes[j].scope
    case None => None
    case Some(w) =>
      if nodes[w].kind.WorkflowNode?
      then Some(SetOf(DeclaredIds(nodes, nodes[w].kind.jobIdMap, Jobs(nodes, w))))
      else None
  }

  /** A job whose scope is a workflow resolves its own declared id, and an
      unregistered sibling resolves under its construct id. */
  lemma SiblingIdsContain(nodes: seq<Node>, j: NodeId, w: NodeId, c: NodeId)
    requires Valid(nodes) && j < |nodes| && nodes[j].scope == Some(w)
    requires w < |nodes| && nodes[w].kind.WorkflowNode?
    requires c in nodes[w].children && c < |nodes| && nodes[c].kind.JobNode?
    ensures SiblingIds(nodes, j).Some?
    ensures DeclaredId(nodes[w].kind.jobIdMap, c, nodes[c].id) in SiblingIds(nodes, j).value
    ensures (forall u | 0 <= u < |nodes[w].kind.jobIdMap| :: nodes[w].kind.jobIdMap[u].1 != c)
      ==> nodes[c].id in SiblingIds(nodes, j).value
  {
    assert NodeValid(nodes, w);
    var js := Jobs(nodes, w);
    FilterMembers(nodes, nodes[w].children, JobClass, c);
    var t :| 0 <= t < |js| && js[t] == c;
    var ids := DeclaredIds(nodes, nodes[w].kind.jobIdMap, js);
    assert ids[t] in ids;
  }

  /** The job itself is among its siblings, so needing its own declared id
      resolves. */
  lemma SiblingIdsContainSelf(nodes: seq<Node>, j: NodeId)
    requires Valid(nodes) && j < |nodes| && nodes[j].kind.JobNode?
    requires nodes[j].scope.Some? && nodes[j].scope.value < |nodes|
    requires nodes[nodes[j].scope.value].kind.WorkflowNode?
    ensures SiblingIds(nodes, j).Some?
    ensures DeclaredId(nodes[nodes[j].scope.value].kind.jobIdMap, j, nodes[j].id) in SiblingIds(nodes, j).value
  {
    assert NodeValid(nodes, j);
    SiblingIdsContain(nodes, j, nodes[j].scope.value, j);
  }

  /** What one validator reports for node `i`. A construct registers its
      validator on its own node, so a validator meets only nodes of its own
      class; any other pairing would report nothing. */
  function ValidatorErrors(nodes: seq<Node>, i: NodeId, v: Validator): seq<string>
    requires Valid(nodes) && i < |nodes|
  {
    match v
    case CheckStep =>
      if nodes[i].kind.StepNode? then Step.Errors(nodes[i].kind.step) else []
    case CheckJob =>
      if nodes[i].kind.JobNode?
      then Job.Errors(nodes[i].kind.job, |Steps(nodes, i)|, SiblingIds(nodes, i))
      else []
    case CheckWorkflow =>
      if nodes[i].kind.WorkflowNode?
      then
        var p := nodes[i].kind.workflow;
        Workflow.Errors(p.name, p.on, |Jobs(nodes, i)|) + Workflow.DuplicateErrors(Keys(nodes[i].kind.jobIdMap))
      else []
  }

  /** The errors of the validators `vs` of node `i`, in registration order. */
  function OwnErrors(nodes: seq<Node>, i: NodeId, vs: seq<Validator>): seq<string>
    requires Valid(nodes) && i < |nodes|
  {
    if vs == [] then []
    else OwnErrors(nodes, i, vs[..|vs| - 1]) + ValidatorErrors(nodes, i, vs[|vs| - 1])
  }

  predicate ChildrenAfter(nodes: seq<Node>, p: NodeId, cs: seq<NodeId>)
  {
    forall t | 0 <= t < |cs| :: p < cs[t] < |nodes|
  }

  /** What the validators of each of the nodes `0 .. n - 1` report about
      their own node, as a table indexed by node. */
  function Reports(nodes: seq<Node>, n: nat): (r: seq<seq<string>>)
    requires Valid(nodes) && n <= |nodes|
    ensures |r| == n
  {
    if n == 0 then [] else Reports(nodes, n - 1) + [OwnErrors(nodes, n - 1, nodes[n - 1].validators)]
  }

  lemma {:induction false} ReportsAt(nodes: seq<Node>, n: nat, i: NodeId)
    requires Valid(nodes) && i < n <= |nodes|
    ensures Reports(nodes, n)[i] == OwnErrors(nodes, i, nodes[i].validators)
  {
    if i < n - 1 {
      ReportsAt(nodes, n - 1, i);
    }
  }

  /** The pre-order walk of the subtree rooted at `i`: the report `own[i]` of
      the node itself, then the walks of its children in child order. */
  function Collect(nodes: seq<Node>, own: seq<seq<string>>, i: NodeId): seq<string>
    requires Valid(nodes) && |own| == |nodes| && i < |nodes|
    decreases |nodes| - i, 1
  {
    assert NodeValid(nodes, i);
    own[i] + CollectChildren(nodes, own, i, nodes[i].children)
  }

  function CollectChildren(nodes: seq<Node>, own: seq<seq<string>>, p: NodeId, cs: seq<NodeId>): seq<string>
    requires Valid(nodes) && |own| == |nodes| && p < |nodes| && ChildrenAfter(nodes, p, cs)
    decreases |nodes| - p, 0, |cs|
  {
    if cs == [] then []
    else CollectChildren(nodes, own, p, cs[..|cs| - 1]) + Collect(nodes, own, cs[|cs| - 1])
  }

  /** `node.validate()` on node `i`: the errors of every validator in the
      subtree rooted at `i`, the node's own before its children's, children in
      order. */
  function TreeErrors(nodes: seq<Node>, i: NodeId): seq<string>
    requires Valid(nodes) && i < |nodes|
  {
    Collect(nodes, Reports(nodes, |nodes|), i)
  }

  /** The children report nothing exactly when no child subtree reports
      anything. */
  lemma {:induction false} CollectChildrenEmpty(nodes: seq<Node>, own: seq<seq<string>>, p: NodeId, cs: seq<NodeId>)
    requires Valid(nodes) && |own| == |nodes| && p < |nodes| && ChildrenAfter(nodes, p, cs)
    ensures CollectChildren(nodes, own, p, cs) == [] <==> forall t | 0 <= t < |cs| :: Collect(nodes, own, cs[t]) == []
  {
    if cs != [] {
      var init := cs[..|cs| - 1];
      CollectChildrenEmpty(nodes, own, p, init);
      assert forall t | 0 <= t < |init| :: init[t] == cs[t];
    }
  }

  /** Every error of a child subtree is reported. */
  lemma {:induction false} CollectChildrenInclude(nodes: seq<Node>, own: seq<seq<string>>, p: NodeId, cs: seq<NodeId>, t: nat, e: string)
    requires Valid(nodes) && |own| == |nodes| && p < |nodes| && ChildrenAfter(nodes, p, cs)
    requires t < |cs| && e in Collect(nodes, own, cs[t])
    ensures e in CollectChildren(nodes, own, p, cs)
  {
    var init := cs[..|cs| - 1];
    if t < |init| {
      assert init[t] == cs[t];
      CollectChildrenInclude(nodes, own, p, init, t, e);
    }
  }

  /** A subtree reports nothing exactly when its root's validators and every
      child subtree report nothing; errors are collected, never cut short. */
  lemma TreeErrorsCollect(nodes: seq<Node>, i: NodeId)
    requires Valid(nodes) && i < |nodes|
    ensures ChildrenAfter(nodes, i, nodes[i].children)
    ensures TreeErrors(nodes, i) == [] <==>
      OwnErrors(nodes, i, nodes[i].validators) == [] &&
      forall t | 0 <= t < |nodes[i].children| :: TreeErrors(nodes, nodes[i].children[t]) == []
    ensures forall e | e in OwnErrors(nodes, i, nodes[i].validators) :: e in TreeErrors(nodes, i)
    ensures forall t, e | 0 <= t < |nodes[i].children| && e in TreeErrors(nodes, nodes[i].children[t]) ::
      e in TreeErrors(nodes, i)
  {
    assert NodeValid(nodes, i);
    var own := Reports(nodes, |nodes|);
    var cs := nodes[i].children;
    ReportsAt(nodes, |nodes|, i);
    assert TreeErrors(nodes, i) == own[i] + CollectChildren(nodes, own, i, cs);
    CollectChildrenEmpty(nodes, own, i, cs);
    forall t, e | 0 <= t < |cs| && e in TreeErrors(nodes, cs[t])
      ensures e in TreeErrors(nodes, i)
    {
      CollectChildrenInclude(nodes, own, i, cs, t, e);
    }
  }

  /** The workflow validator's duplicate-id loop walks the keys of a `Map`,
      which are distinct, so it reports only the three reachable rules. */
  lemma WorkflowErrorsReachable(nodes: seq<Node>, w: NodeId)
    requires Valid(nodes) && w < |nodes| && nodes[w].kind.WorkflowNode?
    ensures var p := nodes[w].kind.workflow;
      ValidatorErrors(nodes, w, CheckWorkflow) == Workflow.Errors(p.name, p.on, |Jobs(nodes, w)|)
  {
    assert NodeValid(nodes, w);
    Workflow.NoDuplicateErrors(Keys(nodes[w].kind.jobIdMap));
  }

  /** A job outside a workflow skips the `needs` check: its only possible
      errors are the runs-on and step rules. */
  lemma NeedsSkippedOutsideWorkflow(nodes: seq<Node>, j: NodeId)
    requires Valid(nodes) && j < |nodes| && nodes[j].kind.JobNode?
    requires nodes[j].scope.None? || (nodes[j].scope.value < j && !nodes[nodes[j].scope.value].kind.WorkflowNode?)
    ensures forall e | e in ValidatorErrors(nodes, j, CheckJob) :: e == Job.NoRunsOn || e == Job.NoSteps
  {
    assert NodeValid(nodes, j);
  }

  /** The documents of the steps `ss`, in order. */
  function StepDocs(nodes: seq<Node>, ss: seq<NodeId>): (r: seq<Value>)
    requires InArena(nodes, ss) && forall t | 0 <= t < |ss| :: nodes[ss[t]].kind.StepNode?
    ensures |r| == |ss|
    ensures forall t | 0 <= t < |ss| :: r[t] == Obj(Step.Synth(nodes[ss[t]].kind.step))
  {
    if ss == [] then []
    else
      var last := ss[|ss| - 1];
      StepDocs(nodes, ss[..|ss| - 1]) + [Obj(Step.Synth(nodes[last].kind.step))]
  }

  /** `synth()` of job `j`: its attributes and the documents of its `Step`
      children in child order. */
  function JobDoc(nodes: seq<Node>, j: NodeId): seq<(string, Value)>
    requires Valid(nodes) && j < |nodes| && nodes[j].kind.JobNode?
  {
    var ss := Steps(nodes, j);
    assert forall t | 0 <= t < |ss| :: ss[t] in ss;
    Job.Synth(nodes[j].kind.job, StepDocs(nodes, ss))
  }

  predicate AllJobs(nodes: seq<Node>, js: seq<NodeId>)
  {
    InArena(nodes, js) && forall t | 0 <= t < |js| :: nodes[js[t]].kind.JobNode?
  }

  /** The `jobs` object: for each job of `js` in turn, its document assigned
      under its declared id. */
  function JobsObject(nodes: seq<Node>, m: seq<(string, NodeId)>, js: seq<NodeId>): seq<(string, Value)>
    requires Valid(nodes) && AllJobs(nodes, js)
  {
    if js == [] then []
    else
      var last := js[|js| - 1];
      Put(JobsObject(nodes, m, js[..|js| - 1]), DeclaredId(m, last, nodes[last].id), Obj(JobDoc(nodes, last)))
  }

  /** The `jobs` object has one key per declared id, without repeats. */
  lemma {:induction false} JobsObjectKeys(nodes: seq<Node>, m: seq<(string, NodeId)>, js: seq<NodeId>, k: string)
    requires Valid(nodes) && AllJobs(nodes, js)
    ensures k in Keys(JobsObject(nodes, m, js)) <==> k in DeclaredIds(nodes, m, js)
    ensures Distinct(Keys(JobsObject(nodes, m, js)))
  {
    if js != [] {
      var init := js[..|js| - 1];
      var last := js[|js| - 1];
      JobsObjectKeys(nodes, m, init, k);
      var id := DeclaredId(m, last, nodes[last].id);
      PutKeys(JobsObject(nodes, m, init), id, Obj(JobDoc(nodes, last)));
      PutDistinct(JobsObject(nodes, m, init), id, Obj(JobDoc(nodes, last)));
      assert DeclaredIds(nodes, m, js) == DeclaredIds(nodes, m, init) + [id];
    }
  }

  /** `jobsObj[id] = job.synth()` in turn: under a declared id the `jobs`
      object holds the document of the last job declared with that id, so a
      later job overwrites an earlier one with the same id. */
  lemma {:induction false} JobsObjectGet(nodes: seq<Node>, m: seq<(string, NodeId)>, js: seq<NodeId>, t: nat)
    requires Valid(nodes) && AllJobs(nodes, js) && t < |js|
    requires forall u | t < u < |js| :: DeclaredIds(nodes, m, js)[u] != DeclaredIds(nodes, m, js)[t]
    ensures Get(JobsObject(nodes, m, js), DeclaredIds(nodes, m, js)[t]) == Some(Obj(JobDoc(nodes, js[t])))
  {
    var init := js[..|js| - 1];
    var last := js[|js| - 1];
    var ids := DeclaredIds(nodes, m, js);
    var id := DeclaredId(m, last, nodes[last].id);
    assert js == init + [last];
    DeclaredIdsSnoc(nodes, m, init, last);
    assert ids == DeclaredIds(nodes, m, init) + [id];
    PutGet(JobsObject(nodes, m, init), id, Obj(JobDoc(nodes, last)), ids[t]);
    if t < |init| {
      JobsObjectGet(nodes, m, init, t);
    }
  }

  /** An id that no job declares is not a key of the `jobs` object. */
  lemma JobsObjectMissing(nodes: seq<Node>, m: seq<(string, NodeId)>, js: seq<NodeId>, k: string)
    requires Valid(nodes) && AllJobs(nodes, js) && k !in DeclaredIds(nodes, m, js)
    ensures Get(JobsObject(nodes, m, js), k) == None
  {
    JobsObjectKeys(nodes, m, js, k);
    GetPresent(JobsObject(nodes, m, js), k);
  }

  /** When the declared ids are distinct, the `jobs` object lists every job,
      in order, under its declared id with its document. */
  lemma {:induction false} JobsObjectInOrder(nodes: seq<Node>, m: seq<(string, NodeId)>, js: seq<NodeId>)
    requires Valid(nodes) && AllJobs(nodes, js) && Distinct(DeclaredIds(nodes, m, js))
    ensures |JobsObject(nodes, m, js)| == |js|
    ensures forall t | 0 <= t < |js| ::
      JobsObject(nodes, m, js)[t] == (DeclaredId(m, js[t], nodes[js[t]].id), Obj(JobDoc(nodes, js[t])))
  {
    if js != [] {
      var init := js[..|js| - 1];
      var last := js[|js| - 1];
      var ids := DeclaredIds(nodes, m, js);
      var id := DeclaredId(m, last, nodes[last].id);
      assert ids == DeclaredIds(nodes, m, init) + [id];
      DistinctSnoc(DeclaredIds(nodes, m, init), id);
      JobsObjectInOrder(nodes, m, init);
      JobsObjectKeys(nodes, m, init, id);
      PutNew(JobsObject(nodes, m, init), id, Obj(JobDoc(nodes, last)));
    }
  }

  /** `synth()` of workflow `w` (lib/workflow.ts): its attributes, its
      triggers and the `jobs` object over its `Job` children. */
  function WorkflowDoc(nodes: seq<Node>, w: NodeId): seq<(string, Value)>
    requires Valid(nodes) && w < |nodes| && nodes[w].kind.WorkflowNode?
  {
    var js := Jobs(nodes, w);
    assert forall t | 0 <= t < |js| :: js[t] in js;
    Workflow.Document(nodes[w].kind.workflow, JobsObject(nodes, nodes[w].kind.jobIdMap, js))
  }

  /** The error `addStep` throws for a step created under another scope. */
  function StepMisplaced(id: string): string
  {
    "Step must be created as a child of the job. Use: new Step(this, '" + id + "', ...)"
  }

  /** The error `addJob` throws for a job created under another scope. */
  function JobMisplaced(id: string): string
  {
    "Job must be created as a child of the workflow. Use: new Job(this, '" + id + "', ...)"
  }

  /** The arena after constructing node `n` in scope `s`: `n` is appended to
      the arena and to the children of `s`. */
  function Attach(nodes: seq<Node>, s: NodeId, n: Node): seq<Node>
    requires s < |nodes|
  {
    nodes[s := nodes[s].(children := nodes[s].children + [|nodes|])] + [n]
  }

  /** The arena after `jobIdMap.set(id, j)` on workflow `w`. */
  function Register(nodes: seq<Node>, w: NodeId, id: string, j: NodeId): seq<Node>
    requires w < |nodes| && nodes[w].kind.WorkflowNode?
  {
    var k := nodes[w].kind;
    nodes[w := nodes[w].(kind := WorkflowNode(k.workflow, Put(k.jobIdMap, id, j)))]
  }

  /** A new root keeps the arena well formed. */
  lemma AppendRootValid(nodes: seq<Node>, n: Node)
    requires Valid(nodes) && n.scope.None? && n.children == []
    requires n.validators == [OwnValidator(n.kind)] && n.kind.WorkflowNode? && n.kind.jobIdMap == []
    ensures Valid(nodes + [n])
  {
    var nodes' := nodes + [n];
    forall i | 0 <= i < |nodes'| ensures NodeValid(nodes', i) {
      if i < |nodes| {
        assert NodeValid(nodes, i);
        assert nodes'[i] == nodes[i];
      }
    }
  }

  /** Constructing a step or a job in an existing scope keeps the arena well
      formed. */
  lemma AttachValid(nodes: seq<Node>, s: NodeId, n: Node)
    requires Valid(nodes) && s < |nodes| && n.scope == Some(s) && n.children == []
    requires n.validators == [OwnValidator(n.kind)] && !n.kind.WorkflowNode?
    ensures Valid(Attach(nodes, s, n))
  {
    var nodes' := Attach(nodes, s, n);
    forall i | 0 <= i < |nodes'| ensures NodeValid(nodes', i) {
      if i == |nodes| {
        assert nodes'[s].children[|nodes'[s].children| - 1] == i;
      } else {
        assert NodeValid(nodes, i);
        var cs := nodes[i].children;
        var cs' := nodes'[i].children;
        assert forall t | 0 <= t < |cs| :: nodes'[cs[t]].scope == nodes[cs[t]].scope;
        if i == s {
          assert cs' == cs + [|nodes|];
          assert forall x | x in cs :: x < |nodes|;
          DistinctSnoc(cs, |nodes|);
        }
        if nodes[i].scope.Some? {
          var q := nodes[i].scope.value;
          assert i in nodes'[q].children;
        }
        if nodes[i].kind.WorkflowNode? {
          var m := nodes[i].kind.jobIdMap;
          assert forall e | e in m :: e.1 in cs' && nodes'[e.1].kind == nodes[e.1].kind;
        }
      }
    }
  }

  /** `set` on a table yields the new entry or an old one. */
  lemma {:induction false} PutEntries(m: seq<(string, NodeId)>, k: string, v: NodeId, e: (string, NodeId))
    requires e in Put(m, k, v)
    ensures e == (k, v) || e in m
  {
    if m != [] && m[0].0 != k && e != m[0] {
      PutEntries(m[1..], k, v, e);
    }
  }

  /** Registering a `Job` child keeps the arena well formed. */
  lemma RegisterValid(nodes: seq<Node>, w: NodeId, id: string, j: NodeId)
    requires Valid(nodes) && w < |nodes| && nodes[w].kind.WorkflowNode?
    requires j < |nodes| && nodes[j].scope == Some(w) && nodes[j].kind.JobNode?
    ensures Valid(Register(nodes, w, id, j))
  {
    var nodes' := Register(nodes, w, id, j);
    forall i | 0 <= i < |nodes'| ensures NodeValid(nodes', i) {
      RegisterNodeValid(nodes, w, id, j, i);
    }
  }

  lemma RegisterNodeValid(nodes: seq<Node>, w: NodeId, id: string, j: NodeId, i: NodeId)
    requires Valid(nodes) && w < |nodes| && nodes[w].kind.WorkflowNode?
    requires j < |nodes| && nodes[j].scope == Some(w) && nodes[j].kind.JobNode?
    requires i < |nodes|
    ensures NodeValid(Register(nodes, w, id, j), i)
  {
    var nodes' := Register(nodes, w, id, j);
    assert NodeValid(nodes, i);
    RegisterFrame(nodes, w, id, j);
    var n, n' := nodes[i], nodes'[i];
    if n'.scope.Some? {
      var s := n'.scope.value;
      assert nodes'[s].children == nodes[s].children;
    }
    forall t | 0 <= t < |n'.children|
      ensures i < n'.children[t] < |nodes'| && nodes'[n'.children[t]].scope == Some(i)
    {
      var c := n.children[t];
      assert nodes'[c].scope == nodes[c].scope;
    }
    assert n'.validators == [OwnValidator(n'.kind)];
    if n'.kind.WorkflowNode? {
      RegistryAfter(nodes, w, id, j, i);
    }
  }

  /** Registering changes nothing but the registry of `w`. */
  lemma RegisterFrame(nodes: seq<Node>, w: NodeId, id: string, j: NodeId)
    requires w < |nodes| && nodes[w].kind.WorkflowNode?
    ensures var nodes' := Register(nodes, w, id, j);
      && |nodes'| == |nodes|
      && (forall x | 0 <= x < |nodes| ::
            && nodes'[x].scope == nodes[x].scope && nodes'[x].children == nodes[x].children
            && nodes'[x].validators == nodes[x].validators
            && nodes'[x].kind.JobNode? == nodes[x].kind.JobNode?
            && nodes'[x].kind.WorkflowNode? == nodes[x].kind.WorkflowNode?)
      && (forall x | 0 <= x < |nodes| && x != w :: nodes'[x] == nodes[x])
      && nodes'[w].kind.jobIdMap == Put(nodes[w].kind.jobIdMap, id, j)
  {
  }

  /** The registries after registering `j` under `w` are well formed. */
  lemma RegistryAfter(nodes: seq<Node>, w: NodeId, id: string, j: NodeId, i: NodeId)
    requires Valid(nodes) && w < |nodes| && nodes[w].kind.WorkflowNode?
    requires j < |nodes| && nodes[j].scope == Some(w) && nodes[j].kind.JobNode?
    requires i < |nodes| && nodes[i].kind.WorkflowNode?
    ensures Register(nodes, w, id, j)[i].kind.WorkflowNode?
    ensures RegistryValid(Register(nodes, w, id, j), Register(nodes, w, id, j)[i])
  {
    var nodes' := Register(nodes, w, id, j);
    RegisterFrame(nodes, w, id, j);
    assert NodeValid(nodes, i);
    var m := nodes[i].kind.jobIdMap;
    assert RegistryValid(nodes, nodes[i]);
    if i == w {
      assert NodeValid(nodes, j);
      PutDistinct(m, id, j);
      forall e: (string, NodeId) | e in Put(m, id, j)
        ensures e.1 in nodes'[w].children && e.1 < |nodes'| && nodes'[e.1].kind.JobNode?
      {
        PutEntries(m, id, j, e);
        if e != (id, j) {
          assert e in m;
        } else {
          assert j in nodes[w].children;
        }
      }
    } else {
      assert nodes'[i] == nodes[i];
      forall e: (string, NodeId) | e in m
        ensures e.1 in nodes'[i].children && e.1 < |nodes'| && nodes'[e.1].kind.JobNode?
      {
      }
    }
  }

  /** A node's own errors are those of the validator its constructor
      registered. */
  lemma OwnErrorsSingle(nodes: seq<Node>, i: NodeId)
    requires Valid(nodes) && i < |nodes|
    ensures OwnErrors(nodes, i, nodes[i].validators) == ValidatorErrors(nodes, i, OwnValidator(nodes[i].kind))
  {
    assert NodeValid(nodes, i);
    assert nodes[i].validators[..0] == [];
  }

  /** A step in a subtree that validates has exactly one of `uses` and
      `run`. */
  lemma StepTreeValid(nodes: seq<Node>, s: NodeId)
    requires Valid(nodes) && s < |nodes| && nodes[s].kind.StepNode? && TreeErrors(nodes, s) == []
    ensures Step.IsSet(nodes[s].kind.step.uses) != Step.IsSet(nodes[s].kind.step.run)
  {
    TreeErrorsCollect(nodes, s);
    OwnErrorsSingle(nodes, s);
    Step.ErrorsCases(nodes[s].kind.step);
  }

  /** A job in a subtree that validates has a runner, at least one step,
      steps that each validate, and `needs` that all resolve. */
  lemma JobTreeValid(nodes: seq<Node>, j: NodeId)
    requires Valid(nodes) && j < |nodes| && nodes[j].kind.JobNode? && TreeErrors(nodes, j) == []
    ensures !Job.RunsOnMissing(nodes[j].kind.job.runsOn)
    ensures |Steps(nodes, j)| > 0
    ensures forall s | s in Steps(nodes, j) ::
      Step.IsSet(nodes[s].kind.step.uses) != Step.IsSet(nodes[s].kind.step.run)
    ensures SiblingIds(nodes, j).Some? && nodes[j].kind.job.needs.Some? ==>
      forall n | n in nodes[j].kind.job.needs.value :: n in SiblingIds(nodes, j).value
  {
    TreeErrorsCollect(nodes, j);
    OwnErrorsSingle(nodes, j);
    var p := nodes[j].kind.job;
    Job.ErrorsCases(p, |Steps(nodes, j)|, SiblingIds(nodes, j));
    forall s | s in Steps(nodes, j)
      ensures Step.IsSet(nodes[s].kind.step.uses) != Step.IsSet(nodes[s].kind.step.run)
    {
      ChildValid(nodes, j, s);
      StepTreeValid(nodes, s);
    }
  }

  /** What a workflow that validates promises: a name that is not blank, a
      trigger, at least one job, and jobs that each validate with every
      `needs` entry naming the declared id of a job of the workflow. */
  lemma WorkflowTreeValid(nodes: seq<Node>, w: NodeId)
    requires Valid(nodes) && w < |nodes| && nodes[w].kind.WorkflowNode? && TreeErrors(nodes, w) == []
    ensures !Text.Blank(nodes[w].kind.workflow.name)
    ensures nodes[w].kind.workflow.on != []
    ensures |Jobs(nodes, w)| > 0
    ensures forall j | j in Jobs(nodes, w) ::
      && !Job.RunsOnMissing(nodes[j].kind.job.runsOn)
      && |Steps(nodes, j)| > 0
      && (nodes[j].kind.job.needs.Some? ==> forall n | n in nodes[j].kind.job.needs.value ::
            n in DeclaredIds(nodes, nodes[w].kind.jobIdMap, Jobs(nodes, w)))
  {
    WorkflowRootValid(nodes, w);
    forall j | j in Jobs(nodes, w)
      ensures && !Job.RunsOnMissing(nodes[j].kind.job.runsOn)
              && |Steps(nodes, j)| > 0
              && (nodes[j].kind.job.needs.Some? ==> forall n | n in nodes[j].kind.job.needs.value ::
                    n in DeclaredIds(nodes, nodes[w].kind.jobIdMap, Jobs(nodes, w)))
    {
      JobInWorkflowValid(nodes, w, j);
    }
  }

  lemma WorkflowRootValid(nodes: seq<Node>, w: NodeId)
    requires Valid(nodes) && w < |nodes| && nodes[w].kind.WorkflowNode? && TreeErrors(nodes, w) == []
    ensures !Text.Blank(nodes[w].kind.workflow.name)
    ensures nodes[w].kind.workflow.on != []
    ensures |Jobs(nodes, w)| > 0
  {
    TreeErrorsCollect(nodes, w);
    OwnErrorsSingle(nodes, w);
    WorkflowErrorsReachable(nodes, w);
    var p := nodes[w].kind.workflow;
    Workflow.ErrorsCases(p.name, p.on, |Jobs(nodes, w)|);
  }

  lemma JobInWorkflowValid(nodes: seq<Node>, w: NodeId, j: NodeId)
    requires Valid(nodes) && w < |nodes| && nodes[w].kind.WorkflowNode?
    requires TreeErrors(nodes, w) == [] && j in Jobs(nodes, w)
    ensures !Job.RunsOnMissing(nodes[j].kind.job.runsOn)
    ensures |Steps(nodes, j)| > 0
    ensures nodes[j].kind.job.needs.Some? ==> forall n | n in nodes[j].kind.job.needs.value ::
      n in DeclaredIds(nodes, nodes[w].kind.jobIdMap, Jobs(nodes, w))
  {
    ChildValid(nodes, w, j);
    JobTreeValid(nodes, j);
    var ids := DeclaredIds(nodes, nodes[w].kind.jobIdMap, Jobs(nodes, w));
    assert SiblingIds(nodes, j) == Some(SetOf(ids));
  }

  /** A subtree without errors has children without errors. */
  lemma ChildValid(nodes: seq<Node>, i: NodeId, c: NodeId)
    requires Valid(nodes) && i < |nodes| && TreeErrors(nodes, i) == [] && c in nodes[i].children
    ensures c < |nodes| && nodes[c].scope == Some(i) && TreeErrors(nodes, c) == []
  {
    assert NodeValid(nodes, i);
    var t :| 0 <= t < |nodes[i].children| && nodes[i].children[t] == c;
    TreeErrorsCollect(nodes, i);
  }

  /** One more child: the filter of a longer prefix. */
  lemma FilterSnoc(nodes: seq<Node>, cs: seq<NodeId>, k: nat, c: Class)
    requires InArena(nodes, cs) && k < |cs|
    ensures Filter(nodes, cs[..k + 1], c) ==
      Filter(nodes, cs[..k], c) + (if IsA(nodes[cs[k]], c) then [cs[k]] else [])
  {
    assert cs[..k + 1][..k] == cs[..k];
  }

  lemma DeclaredIdsSnoc(nodes: seq<Node>, m: seq<(string, NodeId)>, js: seq<NodeId>, x: NodeId)
    requires InArena(nodes, js) && x < |nodes|
    ensures InArena(nodes, js + [x])
    ensures DeclaredIds(nodes, m, js + [x]) == DeclaredIds(nodes, m, js) + [DeclaredId(m, x, nodes[x].id)]
  {
    assert (js + [x])[..|js|] == js;
  }

  lemma SetOfSnoc(s: seq<string>, x: string)
    ensures SetOf(s + [x]) == SetOf(s) + {x}
  {
    assert (s + [x])[..|s|] == s;
  }

  lemma JobsObjectSnoc(nodes: seq<Node>, m: seq<(string, NodeId)>, js: seq<NodeId>, x: NodeId)
    requires Valid(nodes) && AllJobs(nodes, js) && x < |nodes| && nodes[x].kind.JobNode?
    ensures AllJobs(nodes, js + [x])
    ensures JobsObject(nodes, m, js + [x]) ==
      Put(JobsObject(nodes, m, js), DeclaredId(m, x, nodes[x].id), Obj(JobDoc(nodes, x)))
  {
    assert (js + [x])[..|js|] == js;
  }

  lemma OwnErrorsSnoc(nodes: seq<Node>, i: NodeId, vs: seq<Validator>, k: nat)
    requires Valid(nodes) && i < |nodes| && k < |vs|
    ensures OwnErrors(nodes, i, vs[..k + 1]) == OwnErrors(nodes, i, vs[..k]) + ValidatorErrors(nodes, i, vs[k])
  {
    assert vs[..k + 1][..k] == vs[..k];
  }

  lemma CollectChildrenSnoc(nodes: seq<Node>, own: seq<seq<string>>, p: NodeId, cs: seq<NodeId>, k: nat)
    requires Valid(nodes) && |own| == |nodes| && p < |nodes| && ChildrenAfter(nodes, p, cs) && k < |cs|
    ensures ChildrenAfter(nodes, p, cs[..k]) && ChildrenAfter(nodes, p, cs[..k + 1])
    ensures CollectChildren(nodes, own, p, cs[..k + 1]) ==
      CollectChildren(nodes, own, p, cs[..k]) + Collect(nodes, own, cs[k])
  {
    assert cs[..k + 1][..k] == cs[..k];
  }
}
