# akshon construct engine in Dafny

akshon builds GitHub Actions workflow files from a tree of constructs. The
root is a `Workflow`. Its children are `Job` constructs, and their children
are `Step` constructs. Each construct registers a validator on its own node.
A workflow also keeps a registry, `jobIdMap`, from declared job ids to jobs.

Synthesis turns the tree into a plain document. The triggers are renamed to
GitHub's spelling, each job is placed under its declared id, and every
optional attribute is emitted only when it is set. The `src/` edition of the
workflow validates the whole tree first and refuses a tree with errors. It
also names the output file after the workflow and puts a header before the
emitted text. An `Action` is an `owner/name[@version]` reference that a step
can `use`.

The model has these modules:

- `Wrappers`: `Option` and `Result`.
- `Doc`: the document values, and JavaScript truthiness for them.
- `Text`: `split`, `join`, the white-space class, `trim() === ''`, and
  `replace(/\s+/g, '_')`.
- `Assoc`: JavaScript objects as ordered association lists. Assigning to an
  existing key keeps its position.
- `ActionRef`: action references.
- `Step`, `Job`, `Workflow`: the attributes of each construct, its validator
  rules and its synthesis, as pure functions.
- `Tree`: the construct tree as an arena of nodes in creation order. A node's
  identity is its index. It also holds the `steps`/`jobs` getters, tree
  validation and the documents.
- `Forest`: the construct tree as the program mutates it. A class holds the
  arena and provides the constructors, `addStep`, `addJob`, `getJob`, the
  validators as loops, `node.validate()` and the two `synth()` methods.

`lib/job.ts` and `src/job.ts` have the same constructor, `addStep`, `steps`,
`synth` and `validate`, so the model has one `Job` module. `lib/workflow.ts`
and `src/workflow.ts` share everything except `synth()`. The plain-object
`synth()` of `lib/` is `Forest.Forest.SynthWorkflow`. The validate-then-write
`synth()` of `src/` is `Forest.Forest.Synthesize`.

## Model

| member | source | states |
|---|---|---|
| ActionRef.ToString | src/action.ts:39-44 | The text starts with the owner, a `/` and the name. It is longer than that exactly when the version is a non-empty string, so an empty version is dropped. |
| ActionRef.FromString | src/action.ts:29-34 | Returns an action exactly when the text before the first `@` contains a `/`. The version is present exactly when the text contains `@`. The owner and name hold no `/` or `@`, and the version holds no `@`. |
| ActionRef.FormatThenParse | src/action.ts:29-44 | For an action whose owner and name hold no `/` or `@` and whose version is absent or non-empty without `@`, `fromString(a.toString())` gives back `a`. |
| ActionRef.ParseThenFormat | src/action.ts:29-44 | For a canonical string (`o/n` or `o/n@v` with non-empty `v`), `fromString(s).toString()` gives back `s`. |
| ActionRef.CanonicalIffWellFormed | src/action.ts:20-44 | Canonical strings and well-formed actions correspond both ways under parsing and formatting. |
| ActionRef.OwnerNameFree | src/action.ts:30-31 | Owner and name split out of the part before the first `@` contain no `@`. |
| Text.Split | src/action.ts:30-31 | The JavaScript `split` with a one-character separator always yields at least one segment. |
| Text.SplitCount | src/action.ts:30-32 | There is more than one segment exactly when the separator occurs, so `parts[1]` is defined exactly then. |
| Text.SplitSegmentsFree | src/action.ts:30-31 | No segment contains the separator. |
| Text.JoinSplit | src/action.ts:30-44 | Joining the segments of a split with the separator restores the text. |
| Text.SplitJoin | src/action.ts:30-44 | Splitting the join of separator-free segments gives the segments back. |
| Text.UnderscoreRunsNoWhitespace | src/workflow.ts:314 | `replace(/\s+/g, '_')` leaves no white space. |
| Text.UnderscoreRunsIdentity | src/workflow.ts:314 | A name without white space is unchanged. |
| Text.UnderscoreRunsRun | src/workflow.ts:314 | A whole run of white space becomes a single `_`. |
| Text.UnderscoreRunsConcat | src/workflow.ts:314 | The replacement works piecewise across a boundary that follows a non-white-space character. |
| Step.FromAction | lib/step.ts:100-120 | `uses` is the action's text form. `run`, `working-directory` and `shell` stay unset. Without props, every other attribute is unset. |
| Step.Errors | lib/step.ts:178-190 | The validator's two rules, in the source's order; their properties are in `Step.ErrorsCases`. |
| Step.Entries | lib/step.ts:125-173 | Every target key is offered once, in the order the source assigns them: `name, uses, run, env, with, working-directory, shell, id, continue-on-error, timeout-minutes, if`. |
| Step.Synth | lib/step.ts:125-173 | `synth()`: the offered entries whose guard holds; its keys and fields are proved in `Step.SynthKeys` and `Step.SynthFields`. |
| Step.ErrorsCases | lib/step.ts:178-190 | "either uses or run" is reported exactly when neither is set. "both" is reported exactly when both are set. At most one message is reported, and none exactly when exactly one of the two is set. |
| Step.FromActionValid | lib/step.ts:100-120 | A step built from an action passes its validator. |
| Step.SynthKeys | lib/step.ts:125-173 | The synthesized step's keys follow the fixed order `name, uses, run, env, with, working-directory, shell, id, continue-on-error, timeout-minutes, if`. Each appears at most once, and no other key appears. |
| Step.SynthFields | lib/step.ts:125-173 | Each target key holds its attribute (`if` from `condition`, `working-directory` from `workingDirectory`) exactly when the source's guard holds. `false` and `0` are kept for the two defined-checked keys. |
| Job.MissingNeeds | lib/job.ts:278-282 | The `for (const need of this.needs)` loop's result on a set of ids; its properties are in `Job.MissingNeedsMembers` and `Job.MissingNeedsShape`, and `Forest.NeedsCheck` is the loop. |
| Job.Errors | lib/job.ts:248-287 | The job validator's three rules, in the source's order, with the dependency rule only for a non-empty `needs` and a workflow scope; its properties are in `Job.ErrorsCases`. |
| Job.Entries | lib/job.ts:182-243 | Every target key is offered once, in the order the source assigns them, `runs-on` first and `steps` last. |
| Job.Synth | lib/job.ts:182-243 | `synth()` given the step documents; its shape is proved in `Job.SynthOrder`, `Job.SynthFields` and `Job.MinimalJob`. |
| Job.MissingNeedsMembers | lib/job.ts:278-282 | The missing-dependency message for `n` is reported exactly when `n` is in `needs` and not among the sibling ids. There are at most as many messages as `needs` entries, and none exactly when every entry resolves. |
| Job.MissingNeedsShape | lib/job.ts:278-282 | Every dependency message names an entry of `needs` that is not among the sibling ids. |
| Job.MissingNeedInjective | lib/job.ts:280 | Different dependency names give different messages. |
| Job.ErrorsCases | lib/job.ts:248-287 | "runs-on" is reported exactly when `runsOn` is empty (an empty string or an empty list). "at least one step" is reported exactly when there are no steps. A missing-dependency message is reported exactly when the scope is a workflow and the entry is unresolved. The messages are aggregated, and their count is the sum of the rules. |
| Job.SynthOrder | lib/job.ts:182-243 | A synthesized job starts with `runs-on` and ends with `steps`, always. Its keys follow the fixed order, each at most once. |
| Job.SynthFields | lib/job.ts:182-243 | Each optional key holds exactly its attribute under the source's guard. `needs` is present whenever it is defined, even when empty. `continue-on-error` and `timeout-minutes` are kept when `false` or `0`. |
| Job.MinimalJob | lib/job.ts:182-243 | A job with only `runsOn` and one step synthesizes to `{runs-on, steps}`. |
| Workflow.Errors | lib/workflow.ts:247-260 | The name, trigger and job rules of the workflow validator, in order; their properties are in `Workflow.ErrorsCases`. |
| Workflow.DuplicateErrors | lib/workflow.ts:262-269 | One message per registry key already seen earlier in the walk; see `Workflow.DuplicateErrorsIffRepeated` and `Forest.DuplicateCheck`. |
| Workflow.ErrorsCases | lib/workflow.ts:247-260 | Each of the name, trigger and job rules fires exactly when its condition holds: a blank name after `trim()`, no trigger keys, no `Job` children. The rules are aggregated. |
| Workflow.NoDuplicateErrors | lib/workflow.ts:262-269 | Over distinct keys, such as those of a `Map`, the duplicate loop reports nothing. |
| Workflow.DuplicateErrorsIffRepeated | lib/workflow.ts:262-269 | The duplicate loop reports nothing exactly when the keys are distinct. |
| Workflow.KnownEntries | lib/workflow.ts:277-299 | The six `if (this.on.x)` assignments as candidate entries; see `Workflow.KnownEntriesTable`. |
| Workflow.Custom | lib/workflow.ts:301-306 | The entries of `on` whose key is not one of the six known names, in order; see `Workflow.CustomKeys`. |
| Workflow.CustomKeys | lib/workflow.ts:301-306 | A key is custom exactly when it is a key of `on` and not one of the six known names. |
| Workflow.Triggers | lib/workflow.ts:274-309 | `synthesizeTriggers()`: the known part, then the custom triggers assigned in order; characterised by `Workflow.TriggersKnown`, `Workflow.TriggersCustom` and `Workflow.TriggersKeys`. |
| Workflow.KnownEntriesTable | lib/workflow.ts:274-299 | The six known triggers are taken in the source's order, under their target names, with a value only when present and truthy. The target names are distinct. |
| Workflow.TriggerTable | lib/workflow.ts:277-299 | `pullRequest`, `workflowDispatch`, `repositoryDispatch` and `workflowCall` become `pull_request`, `workflow_dispatch`, `repository_dispatch` and `workflow_call`. `push` and `schedule` keep their names. |
| Workflow.TriggersKnown | lib/workflow.ts:274-309 | A known trigger appears under its target name exactly when it is present and truthy, unless the caller also wrote the target name as its own key. In that case the later custom copy wins. |
| Workflow.TriggersCustom | lib/workflow.ts:301-306 | Any trigger outside the six known names is copied through with its value. |
| Workflow.TriggersKeys | lib/workflow.ts:274-309 | Every key of the result is a target name or a custom trigger of the caller. |
| Workflow.PutAllGet | lib/workflow.ts:302-306 | After the loop's assignments, a key holds the value last assigned to it, or its earlier value. |
| Workflow.SynthesizeTriggers | lib/workflow.ts:274-309 | The method as written (six `if`s, then a loop over the entries) computes the trigger object defined by `Workflow.Triggers`. |
| Workflow.SynthesizeKnownTriggers | lib/workflow.ts:275-299 | The six `if`s build exactly the present-and-truthy known triggers, in order. |
| Workflow.FileName | src/workflow.ts:314 | `` `${name.replace(/\s+/g, '_')}.yml` ``; see `Workflow.FileNameShape`. |
| Workflow.FileNameShape | src/workflow.ts:314 | The file name contains no white space and ends in `.yml`. A name without white space is kept unchanged before `.yml`. |
| Workflow.DocumentEntries | lib/workflow.ts:191-241 | The candidate top-level keys are `name, on, env, defaults, permissions, concurrency, jobs`, in that order. |
| Workflow.Document | lib/workflow.ts:191-241 | The workflow document over the translated triggers and a jobs object; see `Workflow.DocumentShape` and `Workflow.DocumentFields`. |
| Workflow.DocumentShape | lib/workflow.ts:191-241 | The document starts with `name` and `on`, always, and ends with `jobs`, always. Its keys follow the fixed order, each at most once. |
| Workflow.DocumentFields | lib/workflow.ts:191-211 | `env`, `defaults`, `permissions` and `concurrency` hold exactly the optional attributes. `name`, `on` and `jobs` hold the name, the translated triggers and the jobs object. |
| Tree.Filter | lib/workflow.ts:184-186 | `children.filter(c => c instanceof C)` keeps only children of the class, and only children from the list. |
| Tree.FilterMembers | lib/workflow.ts:184-186 | A node is in the filtered list exactly when it is in the list and of the class. |
| Tree.FilterOrder | lib/job.ts:231-237 | The filtered children are in increasing `indexOf` order, so the `sort` by `indexOf` leaves them as they are. |
| Tree.Steps | lib/job.ts:175-177 | The `steps` getter returns `Step` children of the job. |
| Tree.Jobs | lib/workflow.ts:184-186 | The `jobs` getter returns `Job` children of the workflow. |
| Tree.FirstKeyOf | lib/workflow.ts:219-226 | The scan of `jobIdMap` finds no key exactly when no entry is bound to the job. |
| Tree.FirstKeyResolves | lib/workflow.ts:219-226 | The key the scan finds maps back to the job under `getJob`. |
| Tree.DeclaredId | lib/workflow.ts:219-226 | The first registry key bound to the job, or its construct id when there is none; see `Tree.FirstKeyOf` and `Tree.FirstKeyResolves`. |
| Tree.SiblingIds | lib/job.ts:259-277 | The set of declared ids of the `Job` children of the job's scope when that scope is a workflow, and none otherwise; see `Tree.SiblingIdsContain` and `Forest.CollectIds`. |
| Tree.SiblingIdsContain | lib/job.ts:259-284 | The ids `needs` is resolved against include every job child's declared id. A job child that is not in the registry falls back to its construct id. |
| Tree.SiblingIdsContainSelf | lib/job.ts:259-284 | A job in a workflow always resolves a dependency on its own declared id. |
| Tree.NeedsSkippedOutsideWorkflow | lib/job.ts:259-261 | For a job whose scope is not a workflow, the dependency check is skipped. Only the runs-on and step rules can fire. |
| Tree.ValidatorErrors | lib/workflow.ts:155-157 | What each registered validator reports about its node: `Step.Errors`, `Job.Errors` or the workflow rules. |
| Tree.TreeErrors | src/workflow.ts:255 | `node.validate()`: the node's own validators, then each child subtree in child order; see `Tree.TreeErrorsCollect` and `Forest.Forest.Validate`. |
| Tree.WorkflowErrorsReachable | lib/workflow.ts:247-272 | The workflow validator reports exactly the name, trigger and job rules. The duplicate rule is never reached. |
| Tree.TreeErrorsCollect | lib/workflow.ts:154-157 | The validation of a subtree is empty exactly when its own validators and every child subtree report nothing. Every error of a node and of its child subtrees is reported at the node. |
| Tree.CollectChildrenEmpty | lib/workflow.ts:154-157 | The children report nothing exactly when no child subtree reports anything. |
| Tree.CollectChildrenInclude | lib/workflow.ts:154-157 | Every error of a child subtree is among the errors of the children. |
| Tree.StepTreeValid | lib/step.ts:178-190 | A step in a subtree that validates has exactly one of `uses` and `run`. |
| Tree.JobTreeValid | lib/job.ts:248-287 | A job whose subtree validates has a non-empty `runsOn`, at least one step, and each of its steps has exactly one of `uses` and `run`. Inside a workflow, every dependency it names resolves. |
| Tree.WorkflowTreeValid | src/workflow.ts:253-258 | When the tree under a workflow validates, the name is not blank and there is a trigger and a job. Every job has `runs-on` and steps, and every `needs` entry resolves to a declared id. |
| Tree.WorkflowRootValid | lib/workflow.ts:247-260 | When the tree under a workflow validates, its name is not blank and it has a trigger and a `Job` child. |
| Tree.JobInWorkflowValid | lib/job.ts:248-287 | When the tree under a workflow validates, each of its jobs has `runs-on`, has steps, and names only dependencies among the declared ids. |
| Tree.ChildValid | src/workflow.ts:255 | A child of a node whose subtree validates has that node as its scope and validates itself. |
| Tree.JobDoc | lib/job.ts:182-243 | A job's document over its `Step` children's documents in child order. |
| Tree.JobsObject | lib/workflow.ts:213-238 | `jobsObj[id] = job.synth()` for each `Job` child in turn; see `Tree.JobsObjectKeys`, `Tree.JobsObjectGet` and `Tree.JobsObjectInOrder`. |
| Tree.WorkflowDoc | lib/workflow.ts:191-241 | `synth()` of a workflow over its `Job` children; `Forest.Forest.SynthWorkflow` computes it. |
| Tree.JobsObjectKeys | lib/workflow.ts:213-238 | The keys of the jobs object are the declared ids of the jobs, each once. |
| Tree.JobsObjectGet | lib/workflow.ts:236-238 | Under a declared id, the jobs object holds the document of the last job declared with that id; a later job with the same id overwrites an earlier one. |
| Tree.JobsObjectMissing | lib/workflow.ts:236-238 | An id no job declares is not in the jobs object. |
| Tree.JobsObjectInOrder | lib/workflow.ts:213-238 | With distinct declared ids, the jobs object lists every job's document under its id, in child order. |
| Tree.StepDocs | lib/job.ts:240 | `steps.map(step => step.synth())` gives one document per step, in order. |
| Tree.AttachValid | lib/step.ts:63-95 | Constructing a step or job under an existing scope keeps the tree well formed. |
| Tree.AppendRootValid | lib/workflow.ts:146-157 | Constructing a workflow root keeps the tree well formed. |
| Tree.RegisterValid | lib/workflow.ts:170 | Registering a child job keeps the tree well formed. |
| Forest.DeclaredIdOf | lib/workflow.ts:219-226 | The loop over `jobIdMap` returns the first key bound to the job, or the construct id. |
| Forest.DuplicateCheck | lib/workflow.ts:262-269 | Invariant: the `Set` holds exactly the keys seen so far. The result is one message per key already seen; see `Workflow.DuplicateErrorsIffRepeated`. |
| Forest.NeedsCheck | lib/job.ts:278-282 | The loop reports one message per unresolved `needs` entry, in order. |
| Forest.CollectIds | lib/job.ts:263-277 | The loop over the workflow's children collects the set of declared ids of its `Job` children. |
| Forest.FillJobs | lib/workflow.ts:213-238 | The loop assigns each job child's document under its declared id, giving the jobs object; see `Tree.JobsObjectInOrder`. |
| Forest.Forest.NewWorkflow | lib/workflow.ts:130-158 | `new Workflow(props)` appends a root with the empty id, no children, an empty registry and the workflow validator. The tree stays well formed. |
| Forest.Forest.NewJob | lib/job.ts:98-159 | `new Job(scope, id, props)` appends a node under `scope` with the job validator and nothing else changes. The tree stays well formed. |
| Forest.Forest.NewStep | lib/step.ts:63-95 | `new Step(scope, id, props?)` appends a node under `scope` with the step validator. Without props, every attribute is unset. `addStep` on its scope accepts it. |
| Forest.Forest.FromAction | lib/step.ts:100-120 | `Step.fromAction` appends a step that uses the action, and its validator reports nothing. |
| Forest.Forest.AddStep | lib/job.ts:164-170 | `addStep` returns the step exactly when its scope is the job, and fails with the source's message otherwise. |
| Forest.Forest.GetJob | lib/workflow.ts:177-179 | `getJob(id)` finds a job exactly when `id` is registered. What it finds is a `Job` child of the workflow. |
| Forest.Forest.AddJob | lib/workflow.ts:163-172 | `addJob` succeeds exactly when the job's scope is the workflow. Then `getJob(id)` returns the job and every other id is unchanged. Otherwise it fails with the source's message and changes nothing. |
| Forest.Forest.ValidateJob | lib/job.ts:248-287 | The job validator as written computes `Job.Errors` over the job's steps and its sibling ids. |
| Forest.Forest.ValidateWorkflow | lib/workflow.ts:247-272 | The workflow validator as written computes the name, trigger and job rules, and the duplicate loop adds nothing. |
| Forest.Forest.RunValidator | lib/workflow.ts:155-157 | Running a registered validator gives that validator's errors. |
| Forest.Forest.ValidateOwn | lib/workflow.ts:155-157 | A node's validators run in registration order, and their errors are concatenated. |
| Forest.Forest.Validate | src/workflow.ts:255 | `node.validate()` computes the tree errors of the node: its own, then each child subtree's in child order. |
| Forest.Forest.SynthWorkflow | lib/workflow.ts:191-241 | `synth()` of `lib/` computes the workflow document. Its shape is proved in `Workflow.DocumentShape` and `Workflow.DocumentFields`. |
| Forest.Forest.Synthesize | src/workflow.ts:253-332 | `synth()` of `src/` fails exactly when the tree has errors, with all of them one per line. Otherwise it returns the file name and the header followed by the emitted document. |

## Left out

- YAML emission (`yaml.stringify`) is the parameter `emit` of `Forest.Forest.Synthesize`; the model says nothing about the text it produces.
- Writing the file: `AKSHON_WORKFLOW_DIR`, `path.join`, `fs.existsSync`, `fs.mkdirSync` and `fs.writeFileSync` are I/O. `Synthesize` returns the file name and the text instead of the path it would write.
- The constructs library itself is not part of this model. Its rules for unique and well-formed construct ids, its id sanitising, and its empty-id-only-for-roots rule are not modelled. The model relies only on a node's scope, its children in creation order, and its validators.
- `node.validate()` is assumed to collect the errors of the node's own validators, then of each child subtree in child order. `Tree.TreeErrors`, `Forest.Forest.Validate`, `Forest.Forest.Synthesize` and `Tree.WorkflowTreeValid` rest on this. If the library's `validate()` runs only the node's own validations, `synth()` of `src/workflow.ts` refuses only workflow-level errors, and job and step errors do not stop it.
- Object identity is the node's index. `indexOf`, `===` and `instanceof` are comparisons of indices and node kinds.
- The `sort` by `indexOf` in the `steps` of a job and in the workflow's `synth()` is the identity in the model. `Tree.FilterOrder` proves that the filtered list is already in that order.
- The workflow's `filter`, `map`, `sort` and `for` over the jobs are fused into one loop in `Forest.FillJobs`. The result is the same object.
- JavaScript's ordering of integer-like keys before other keys in an object is not modelled. Objects keep insertion order.
- `timeoutMinutes` and other numbers are integers; floating point is not modelled.
- Object keys bound to `undefined` or `null` in the caller's records are not modelled. Every record value is a document value.
- `env`, `with`, `defaults`, `strategy`, `permissions`, `container`, `services`, `outputs` and `concurrency` are objects, so they are truthy whenever defined. The model treats them as present when defined.
- Attributes are fixed at construction. Public attributes assigned after construction are not modelled.
- `Action.fromString` builds an action with an `undefined` name when the text before the first `@` holds no `/`. That case is `None` in the model.
- `src/job.ts` imports `Step` from `./step`, which is not among the available files. It is taken to be `lib/step.ts`.
- lib/step.ts imports `Action` from `./action`; lib/action.ts is not available. It is taken to be src/action.ts, so `Step.FromAction` and `Forest.Forest.FromAction` use `ActionRef`.
- example.ts, src/env.ts, src/actions/checkout.ts, src/index.ts, index.ts and lib/synthesis.ts are not part of this model.

## Notes on the code

- `Action.fromString` (src/action.ts:29-34) splits on the first `@`, takes the first two `/`-segments of the text before it, ignores any further segments and never throws. `ActionRef.ParseThenFormat` therefore holds for canonical strings only.
- The duplicate-id message at lib/workflow.ts:266 is unreachable: `jobIdMap` is a `Map`, so a second `addJob` with the same id rebinds it and the loop over its keys never sees a repeat. `Tree.WorkflowErrorsReachable` proves this. In the jobs object, a later job with the same declared id overwrites the earlier one (`Tree.JobsObjectGet`).
- `synth()` of src/workflow.ts validates the tree first and throws with every error (src/workflow.ts:255-258), which `Forest.Forest.Synthesize` models. `synth()` of lib/workflow.ts does not validate.
