# semver: `ng-add` project selection and workspace-file fallback

This project models two pieces of decision logic in the semver plugin for Nx and Angular workspaces.

- **The `ng-add` schematic.** It registers the `@jscutlery/semver:version` builder in a workspace in one of two ways.
  - *Synced versioning* adds one synthetic project, `workspace`, rooted at `.`, with a `version` target whose options are `{ syncVersions: true }`. It also adds `workspace: { tags: [] }` to the `projects` of nx.json.
  - *Independent versioning* adds a `version` target with `{ syncVersions: false }` to every selected project. The selection is the `projects` option when that list is not empty. Otherwise the schematic asks a checkbox question with one pre-checked choice per project, and the selection is the answer.
- **`getWorkspaceDefinition(root)`**, as its test pins it down. It reads `root/workspace.json` in utf-8. If that read fails, it reads `root/angular.json`. It returns the document it read and does not report the failed read.

Modules:

- `JsonValues` (`json_values.dfy`): `Option`, a parsed JSON value, and what a spread copies from a value.
- `Workspaces` (`workspaces.dfy`): the devkit's workspace as the schematic sees it.
  - A `ProjectMap` holds projects by name and in the workspace's own order.
  - The `Workspace` class is the mutable object that `updateWorkspace` passes to its callback.
  - `AddTarget` and `InsertProject` are the collections' `add` operations.
- `NgAdd` (`ng_add.dfy`): the schematic.
  - Pure parts as functions: listing, the prompt, the selection predicates, the nx.json merge, and the whole outcome `NgAddOutcome`.
  - In-place parts as methods over `Workspace`: `UpdateProjects` runs the `forEach` loop and `NgAdd` branches on the options. The property lemmas are stated about the functions.
- `VersionUtils` (`version_utils.dfy`): the resolver.
  - `TryCandidates` defines the fallback for any list of candidates; `TryCandidatesOrder` states its order and counts.
  - `GetWorkspaceDefinition` loops over the two fixed candidates and records every read in order. The lemmas state the orders and counts that the test asserts.

Inputs the model takes as parameters:

- The file system is a map from path to parsed document. A path the map lacks is a file whose read fails.
- The prompt's answer is an input.
- What the devkit does when `add` gets a name it already holds is an input, `Clashes`. For each collection it is a function of the existing entry and the new one. It returns the entry that is kept, or `None` when the devkit refuses, in which case the update fails.

## Model

| member | source | states |
|---|---|---|
| `Workspaces.AddTarget` | packages/semver/src/schematics/ng-add/index.ts:36-40 | The project gains the target under the given name; a name already taken is settled by the devkit's policy; the root, the other properties and every other target are kept |
| `Workspaces.InsertProject` | packages/semver/src/schematics/ng-add/index.ts:69-78 | A new project name is appended to the workspace order with its project; a taken name keeps its place and is settled by the policy; names stay unique and every other project is kept |
| `Workspaces.Workspace.AddProject` | packages/semver/src/schematics/ng-add/index.ts:67-79 | The workspace object afterwards holds exactly what `InsertProject` gives, or is unchanged when the devkit refuses |
| `NgAdd.ListProjects` | packages/semver/src/schematics/ng-add/index.ts:10-16 | One entry per project, in workspace order, carrying the project's name and its definition |
| `NgAdd.CreatePrompt` | packages/semver/src/schematics/ng-add/index.ts:18-29 | A checkbox question named `projects`, with the message "Which projects would you like to version independently?", with exactly one choice per listed project, in order, each pre-checked |
| `NgAdd.VersionTargets` | packages/semver/src/schematics/ng-add/index.ts:32-44 | `updateProjects`: the selected projects gain the independent `version` target, the unselected are unchanged, the set and order of projects are kept; it fails exactly when the devkit refuses one of those additions |
| `NgAdd.FromSchema` | packages/semver/src/schematics/ng-add/index.ts:55-59 | The same with the selection "name is in `options.projects`" |
| `NgAdd.FromPrompt` | packages/semver/src/schematics/ng-add/index.ts:46-53 | The question is the prompt built from the listed projects; the same update with the selection "name is in the answer" |
| `NgAdd.WithWorkspaceTags` | packages/semver/src/schematics/ng-add/index.ts:80-86 | nx.json keeps every top-level key; its `projects` keeps every existing entry other than `workspace` and gains `workspace: { tags: [] }`; an absent or non-object `projects` spreads to nothing |
| `NgAdd.UpdateProjects` | packages/semver/src/schematics/ng-add/index.ts:33-43 | The in-place `forEach` over the workspace's projects leaves the workspace equal to `VersionTargets` of the old one, and succeeds exactly when that does; the order of the projects never changes |
| `NgAdd.NgAdd` | packages/semver/src/schematics/ng-add/index.ts:61-96 | The question asked, the success and the new workspace and nx.json are those of `NgAddOutcome`; nx.json is untouched when the rules fail |
| `NgAdd.NgAddOutcome` | packages/semver/src/schematics/ng-add/index.ts:61-96 | `ngAdd` as a value: a question is asked exactly when `syncVersions` is false and `projects` is empty, and it is the prompt built from the listed projects; synced mode's result is the `workspace` project added and nx.json merged, or a failure when the devkit refuses that add; independent mode keeps nx.json and the projects' set and order, and succeeds exactly when every selected project accepts its `version` target, the selection being `projects` when non-empty and the answer otherwise |
| `NgAdd.SelectedProjectsGainVersionTarget` | packages/semver/src/schematics/ng-add/index.ts:34-41 | A selected project with no `version` target gets exactly `{ builder: '@jscutlery/semver:version', options: { syncVersions: false } }` added and keeps its root and properties; a project changes if and only if it is selected |
| `NgAdd.SelectionMattersOnlyOnProjects` | packages/semver/src/schematics/ng-add/index.ts:34-35 | Two predicates that agree on every existing project name give the same update, because only existing projects are visited |
| `NgAdd.UnknownNamesIgnored` | packages/semver/src/schematics/ng-add/index.ts:55-58 | Adding names that are not projects to `options.projects` changes nothing in the result and raises no error |
| `NgAdd.OnlyUnknownNamesChangeNothing` | packages/semver/src/schematics/ng-add/index.ts:55-58 | A list that names no existing project succeeds and leaves the workspace as it was |
| `NgAdd.AllCheckedNames` | packages/semver/src/schematics/ng-add/index.ts:25-28 | Confirming a list of pre-checked choices submits every choice's name, in order |
| `NgAdd.ConfirmingDefaultSubmitsAllNames` | packages/semver/src/schematics/ng-add/index.ts:18-29 | Confirming the prompt as offered submits exactly the workspace's project names, in workspace order |
| `NgAdd.AllNamesSelectAll` | packages/semver/src/schematics/ng-add/index.ts:46-53 | Answering with every project name versions every project, the same as a selection that accepts any name |
| `NgAdd.SyncedAddsWorkspaceProject` | packages/semver/src/schematics/ng-add/index.ts:64-86 | When no project is already named `workspace`, synced mode asks nothing, succeeds and adds exactly one project `workspace`, rooted at `.`, whose one target is `version` with the semver builder and `{ syncVersions: true }`; every other project is kept and nx.json gets the `workspace` entry |
| `NgAdd.SyncedIgnoresProjectList` | packages/semver/src/schematics/ng-add/index.ts:64-93 | In synced mode the outcome does not depend on `options.projects` or on any answer, no question is asked, and no project other than `workspace` is changed (an existing `workspace` project is settled by the devkit's policy) |
| `NgAdd.ExplicitListVersionsListedProjects` | packages/semver/src/schematics/ng-add/index.ts:88-91 | When no listed project already has a `version` target, independent mode with a non-empty list asks nothing, succeeds, keeps nx.json and the projects' set and order, and changes exactly the listed projects, each gaining the independent `version` target |
| `NgAdd.EmptyListPrompts` | packages/semver/src/schematics/ng-add/index.ts:88-92 | Independent mode with an empty list asks the checkbox question with one pre-checked choice per project, in workspace order |
| `NgAdd.AnswerVersionsNamedProjects` | packages/semver/src/schematics/ng-add/index.ts:46-53 | When no answered project already has a `version` target, the update after the prompt succeeds and exactly the projects named in the answer change, each gaining the independent `version` target; nx.json and the order are kept |
| `VersionUtils.TryCandidates` | packages/semver/src/builders/version/utils.spec.ts:38-79 | The candidate fallback for any list of candidates: at most one read per candidate, at least one read when there is a candidate, and every candidate read when none can be read |
| `VersionUtils.TryCandidatesOrder` | packages/semver/src/builders/version/utils.spec.ts:38-79 | Candidates are read in order, one read each, stopping at the first success. Every read before the last one failed. The result is the document of the file read last. With no success, every candidate was read once and failed |
| `VersionUtils.GetWorkspaceDefinition` | packages/semver/src/builders/version/utils.spec.ts:38-79 | The loop over `workspace.json` then `angular.json` returns exactly what `TryCandidates` gives, whose order and counts `TryCandidatesOrder` states: the document read and the reads made, in order |
| `VersionUtils.WorkspaceJsonFirst` | packages/semver/src/builders/version/utils.spec.ts:68-73 | The first read is `root + "/workspace.json"` in `utf-8`; when it succeeds it is the only read and its document is the result |
| `VersionUtils.FallbackToAngularJson` | packages/semver/src/builders/version/utils.spec.ts:67-79 | When `workspace.json` fails and `angular.json` succeeds, exactly two reads are made, `workspace.json` then `angular.json`, both in `utf-8`, and the result is `angular.json`'s document, so the failure is not surfaced |
| `VersionUtils.FallbackScenario` | packages/semver/src/builders/version/utils.spec.ts:39-66 | The test's own case under `/root`: the result's `projects` are `a` (root `packages/a`) and `b` (root `packages/b`), after the two reads in order |

## Left out

- The devkit's `Tree`, `Rule` and `chain`, and the internals of `getWorkspace`, `updateWorkspace` and `updateNxJsonInTree`. These are foreign library calls. The model takes a workspace value and an nx.json value and gives back new ones, and it does not model reading or writing the files.
- What a devkit collection does with a name it already holds. That depends on library code that is not part of this model, so it is a `Clashes` input rather than an assumed overwrite or error.
- The synced branch passes its target under the key `architect`. The model treats it as the new project's targets. How the devkit's `add` stores that key is not modelled.
- The prompt library's rendering and the asynchronous prompt. The answer is an input, and it is ignored whenever the question is not asked.
- The `fs.readFile` callback, the Observable and promise plumbing, and the jest mocks. These are I/O and test harness; the model records each read as a value instead.
- JSON parsing. Files are given as already parsed documents. The resolver's source file (`utils.ts`) is not part of this model, so its behaviour outside the test is not known:
  - the model answers `None` when both reads fail;
  - malformed content is not modelled;
  - the model returns the whole document read, while the test checks only its `projects`.
- Path building is `root + "/" + file`. This agrees with the test's `/root`. The normalisation done by a path-joining library, for example of a trailing `/`, is not modelled.
- The order of keys inside JSON objects, nx.json and a project's targets is not modelled; these are maps. The order of the workspace's projects is modelled.
- Spreading a string or an array held under nx.json's `projects` copies nothing in the model. JavaScript would copy its indices; nx.json's format never holds such a value there.
- The schema of the options (`schema.json` and types) is not part of this model. `projects` is taken to be always present, since `options.projects.length` is read whenever `syncVersions` is false.
- NgAdd.UpdateProjects: when the devkit refuses an addition, the contract does not say which projects were already updated. The source then aborts the rule, and the workspace object is never written.
- NgAdd.NgAdd: on failure, the contract states only that nx.json is unchanged and the workspace stays well formed. See `NgAdd.UpdateProjects` for why.
- Behaviour of the code that is modelled as it stands:
  - names in `projects` that are not projects are ignored without an error (index.ts:34-35, 56-58);
  - an empty `projects` list opens the prompt (index.ts:90-92);
  - `ngAdd` raises no error of its own; a failure in the model comes only from a devkit `add` refusing a name.
- When both reads fail, the model returns `None`. What `getWorkspaceDefinition` does in that case is not known, because `utils.ts` is not part of this model.
- Numbers in JSON are integers in the model, and a target has no `configurations` or `defaultConfiguration`. These values pass through unchanged in the code modelled, so no behaviour depends on them.
