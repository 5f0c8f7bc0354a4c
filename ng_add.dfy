/** The `ng-add` schematic of the semver plugin: it registers the `version`
    builder either once for the whole workspace (synced versioning) or on each
    selected project (independent versioning). The devkit's tree and rule
    machinery is reduced to "workspace value in, workspace value out"; the
    answer of the interactive prompt is an input. */
module NgAdd {
  import opened JsonValues
  import opened Workspaces

  const Builder := "@jscutlery/semver:version"
  const VersionTargetName := "version"
  const WorkspaceProjectName := "workspace"
  const PromptMessage := "Which projects would you like to version independently?"

  /** The schematic's options. */
  datatype SchemaOptions = SchemaOptions(syncVersions: bool, projects: seq<string>)

  /** The answer of the prompt: the names the operator left checked. */
  datatype Answers = Answers(projects: seq<string>)

  /** `{ projectName, ...project }`. */
  datatype NamedProject = NamedProject(projectName: string, project: Project)

  datatype Choice = Choice(name: string, checked: bool)

  /** The question handed to the prompt library. */
  datatype Question = Question(name: string, kind: string, message: string, choices: seq<Choice>)

  /** nx.json, parsed: its top-level object. */
  type NxJson = map<string, Json>

  /** The workspace and nx.json after the schematic has run. */
  datatype Config = Config(workspace: ProjectMap, nx: NxJson)

  /** What running the schematic does: the question it asks, if any, and the
      resulting configuration, or None when the devkit refused an `add`. */
  datatype Outcome = Outcome(asked: Option<Question>, after: Option<Config>)

  /** The target `updateProjects` adds and the synced branch creates. */
  function VersionTarget(syncVersions: bool): (t: Target)
  {
    Target(Builder, map["syncVersions" := JBool(syncVersions)])
  }

  /** The synthetic project of synced versioning. */
  function WorkspaceProject(): (p: Project)
  {
    Project(".", map[VersionTargetName := VersionTarget(true)], map[])
  }

  /** The nx.json entry of the synthetic project: `{ tags: [] }`. */
  function WorkspaceNxEntry(): (entry: Json)
  {
    JObject(map["tags" := JArray([])])
  }

  /** `listProjects`: every project in workspace order, with its name. */
  function ListProjects(ws: ProjectMap): (r: seq<NamedProject>)
    requires ws.WellFormed()
    ensures |r| == |ws.names|
    ensures forall i :: 0 <= i < |r| ==> r[i].projectName == ws.names[i] && r[i].project == ws.byName[ws.names[i]]
  {
    seq(|ws.names|, i requires 0 <= i < |ws.names| => NamedProject(ws.names[i], ws.byName[ws.names[i]]))
  }

  /** `createPrompt`: one checkbox question whose choices are the listed
      projects, in their order, all pre-checked. */
  function CreatePrompt(listed: seq<NamedProject>): (q: Question)
    ensures q.name == "projects" && q.kind == "checkbox" && q.message == PromptMessage
    ensures |q.choices| == |listed|
    ensures forall i :: 0 <= i < |listed| ==> q.choices[i] == Choice(listed[i].projectName, true)
  {
    Question("projects", "checkbox", PromptMessage,
      seq(|listed|, i requires 0 <= i < |listed| => Choice(listed[i].projectName, true)))
  }

  /** The names an operator submits by confirming the prompt as offered: the
      pre-checked choices, in order. */
  function CheckedNames(choices: seq<Choice>): (names: seq<string>)
  {
    if choices == [] then []
    else (if choices[0].checked then [choices[0].name] else []) + CheckedNames(choices[1..])
  }

  /** `(projectName) => list.includes(projectName)`. */
  function Includes(list: seq<string>): (p: string -> bool)
  {
    n => n in list
  }

  /** Selects every name. */
  predicate AnyName(n: string)
  {
    true
  }

  /** What `updateProjects` does to one selected project. */
  function WithVersionTarget(p: Project, onTarget: (Target, Target) -> Option<Target>): (r: Option<Project>)
  {
    AddTarget(p, VersionTargetName, VersionTarget(false), onTarget)
  }

  /** `updateProjects(selected)`: every project whose name is selected gains a
      `version` target with `syncVersions: false`; the others, the set of
      projects and their order stay as they are. It fails exactly when the
      devkit refuses one of these additions. */
  function VersionTargets(ws: ProjectMap, selected: string -> bool, onTarget: (Target, Target) -> Option<Target>): (r: Option<ProjectMap>)
    requires ws.WellFormed()
    ensures r.Some? <==> forall n :: n in ws.byName && selected(n) ==> WithVersionTarget(ws.byName[n], onTarget).Some?
    ensures r.Some? ==> r.value.names == ws.names && r.value.byName.Keys == ws.byName.Keys && r.value.WellFormed()
    ensures r.Some? ==> forall n :: n in ws.byName && !selected(n) ==> r.value.byName[n] == ws.byName[n]
    ensures r.Some? ==> forall n :: n in ws.byName && selected(n) ==> Some(r.value.byName[n]) == WithVersionTarget(ws.byName[n], onTarget)
  {
    if exists n | n in ws.byName :: selected(n) && WithVersionTarget(ws.byName[n], onTarget).None? then
      None
    else
      Some(ProjectMap(ws.names, map n | n in ws.byName ::
        if selected(n) then WithVersionTarget(ws.byName[n], onTarget).value else ws.byName[n]))
  }

  /** `updateWorkspaceFromSchema`: the projects named in the options are
      selected. */
  function FromSchema(ws: ProjectMap, options: SchemaOptions, onTarget: (Target, Target) -> Option<Target>): (r: Option<ProjectMap>)
    requires ws.WellFormed()
    ensures r.Some? <==> forall n :: n in ws.byName && n in options.projects ==> WithVersionTarget(ws.byName[n], onTarget).Some?
    ensures r.Some? ==> r.value.names == ws.names && r.value.byName.Keys == ws.byName.Keys
    ensures r.Some? ==> forall n :: n in ws.byName && n !in options.projects ==> r.value.byName[n] == ws.byName[n]
    ensures r.Some? ==> forall n :: n in ws.byName && n in options.projects ==> Some(r.value.byName[n]) == WithVersionTarget(ws.byName[n], onTarget)
  {
    VersionTargets(ws, Includes(options.projects), onTarget)
  }

  /** `updateWorkspaceFromPrompt`: the question asked, and the projects named
      in the answer selected. */
  function FromPrompt(ws: ProjectMap, answers: Answers, onTarget: (Target, Target) -> Option<Target>): (r: (Question, Option<ProjectMap>))
    requires ws.WellFormed()
    ensures r.0 == CreatePrompt(ListProjects(ws))
    ensures r.1.Some? <==> forall n :: n in ws.byName && n in answers.projects ==> WithVersionTarget(ws.byName[n], onTarget).Some?
    ensures r.1.Some? ==> r.1.value.names == ws.names && r.1.value.byName.Keys == ws.byName.Keys
    ensures r.1.Some? ==> forall n :: n in ws.byName && n !in answers.projects ==> r.1.value.byName[n] == ws.byName[n]
    ensures r.1.Some? ==> forall n :: n in ws.byName && n in answers.projects ==> Some(r.1.value.byName[n]) == WithVersionTarget(ws.byName[n], onTarget)
  {
    (CreatePrompt(ListProjects(ws)), VersionTargets(ws, Includes(answers.projects), onTarget))
  }

  /** The `updateNxJsonInTree` callback of the synced branch:
      `{ ...nx, projects: { ...nx.projects, workspace: { tags: [] } } }`. */
  function WithWorkspaceTags(nx: NxJson): (r: NxJson)
    ensures r.Keys == nx.Keys + {"projects"}
    ensures forall k :: k in nx && k != "projects" ==> r[k] == nx[k]
    ensures r["projects"].JObject?
    ensures r["projects"].fields.Keys == SpreadOf(Get(nx, "projects")).Keys + {"workspace"}
    ensures r["projects"].fields["workspace"] == JObject(map["tags" := JArray([])])
    ensures forall k :: k in SpreadOf(Get(nx, "projects")) && k != "workspace" ==>
      r["projects"].fields[k] == SpreadOf(Get(nx, "projects"))[k]
  {
    nx["projects" := JObject(SpreadOf(Get(nx, "projects"))[WorkspaceProjectName := WorkspaceNxEntry()])]
  }

  /** `ngAdd(options)`, run on a workspace and an nx.json, with the answer the
      operator would give if asked. */
  function NgAddOutcome(options: SchemaOptions, ws: ProjectMap, nx: NxJson, answers: Answers, clashes: Clashes): (r: Outcome)
    requires ws.WellFormed()
    ensures r.asked.Some? <==> !options.syncVersions && options.projects == []
    ensures r.asked.Some? ==> r.asked.value == CreatePrompt(ListProjects(ws))
    ensures options.syncVersions ==>
      r.after == (match InsertProject(ws, "workspace", WorkspaceProject(), clashes.onProject)
                  case None => None
                  case Some(w) => Some(Config(w, WithWorkspaceTags(nx))))
    ensures !options.syncVersions && r.after.Some? ==>
      r.after.value.nx == nx && r.after.value.workspace.names == ws.names && r.after.value.workspace.byName.Keys == ws.byName.Keys
    ensures !options.syncVersions ==>
      (r.after.Some? <==> forall n :: n in ws.byName && n in (if options.projects != [] then options.projects else answers.projects) ==>
         WithVersionTarget(ws.byName[n], clashes.onTarget).Some?)
  {
    if options.syncVersions then
      match InsertProject(ws, WorkspaceProjectName, WorkspaceProject(), clashes.onProject)
      case None => Outcome(None, None)
      case Some(w) => Outcome(None, Some(Config(w, WithWorkspaceTags(nx))))
    else if |options.projects| > 0 then
      match FromSchema(ws, options, clashes.onTarget)
      case None => Outcome(None, None)
      case Some(w) => Outcome(None, Some(Config(w, nx)))
    else
      var (q, updated) := FromPrompt(ws, answers, clashes.onTarget);
      match updated
      case None => Outcome(Some(q), None)
      case Some(w) => Outcome(Some(q), Some(Config(w, nx)))
  }

  /** The `updateWorkspace` callback of `updateProjects`, changing the
      workspace in place as `workspace.projects.forEach` does. When the
      devkit refuses an addition the update stops there and fails; the
      workspace object is then discarded unwritten. */
  method UpdateProjects(ws: Workspace, selected: string -> bool, onTarget: (Target, Target) -> Option<Target>) returns (ok: bool)
    requires ws.Valid()
    modifies ws
    ensures ws.Valid() && ws.names == old(ws.names)
    ensures ok == VersionTargets(old(ws.Value()), selected, onTarget).Some?
    ensures ok ==> ws.Value() == VersionTargets(old(ws.Value()), selected, onTarget).value
  {
    ghost var before := ws.Value();
    var names := ws.names;
    var i := 0;
    while i < |names|
      invariant 0 <= i <= |names|
      invariant ws.names == names == before.names && ws.projects.Keys == before.byName.Keys
      invariant Processed(before, ws.projects, i, selected, onTarget)
      invariant forall k :: i <= k < |names| ==> ws.projects[names[k]] == before.byName[names[k]]
    {
      var name := names[i];
      if selected(name) {
        var updated := WithVersionTarget(ws.projects[name], onTarget);
        if updated.None? {
          assert name in before.byName && selected(name) && WithVersionTarget(before.byName[name], onTarget).None?;
          ok := false;
          return;
        }
        ws.projects := ws.projects[name := updated.value];
      }
      i := i + 1;
    }
    ok := true;
    AllProcessed(before, ws.projects, selected, onTarget);
  }

  /** The first `i` projects of `before`, in workspace order, have been through
      `updateProjects` in `now`. */
  ghost predicate Processed(before: ProjectMap, now: map<string, Project>, i: nat, selected: string -> bool,
                            onTarget: (Target, Target) -> Option<Target>)
    requires before.WellFormed() && i <= |before.names| && now.Keys == before.byName.Keys
  {
    forall k :: 0 <= k < i ==>
      if selected(before.names[k]) then Some(now[before.names[k]]) == WithVersionTarget(before.byName[before.names[k]], onTarget)
      else now[before.names[k]] == before.byName[before.names[k]]
  }

  lemma AllProcessed(before: ProjectMap, now: map<string, Project>, selected: string -> bool,
                     onTarget: (Target, Target) -> Option<Target>)
    requires before.WellFormed() && now.Keys == before.byName.Keys
    requires Processed(before, now, |before.names|, selected, onTarget)
    ensures VersionTargets(before, selected, onTarget) == Some(ProjectMap(before.names, now))
  {
    forall n | n in before.byName
      ensures if selected(n) then Some(now[n]) == WithVersionTarget(before.byName[n], onTarget) else now[n] == before.byName[n]
    {
      var k :| 0 <= k < |before.names| && before.names[k] == n;
    }
    var r := VersionTargets(before, selected, onTarget);
    assert r.Some?;
    assert r.value.byName == now;
  }

  /** `ngAdd(options)` applied to a workspace object and an nx.json: the
      question asked, whether the rules succeeded, and the new nx.json. */
  method NgAdd(options: SchemaOptions, ws: Workspace, nx: NxJson, answers: Answers, clashes: Clashes)
    returns (asked: Option<Question>, ok: bool, nxOut: NxJson)
    requires ws.Valid()
    modifies ws
    ensures ws.Valid()
    ensures asked == NgAddOutcome(options, old(ws.Value()), nx, answers, clashes).asked
    ensures ok == NgAddOutcome(options, old(ws.Value()), nx, answers, clashes).after.Some?
    ensures ok ==> Config(ws.Value(), nxOut) == NgAddOutcome(options, old(ws.Value()), nx, answers, clashes).after.value
    ensures !ok ==> nxOut == nx
  {
    if options.syncVersions {
      asked := None;
      ok := ws.AddProject(WorkspaceProjectName, WorkspaceProject(), clashes.onProject);
      nxOut := if ok then WithWorkspaceTags(nx) else nx;
    } else if |options.projects| > 0 {
      asked := None;
      ok := UpdateProjects(ws, Includes(options.projects), clashes.onTarget);
      nxOut := nx;
    } else {
      asked := Some(CreatePrompt(ListProjects(ws.Value())));
      ok := UpdateProjects(ws, Includes(answers.projects), clashes.onTarget);
      nxOut := nx;
    }
  }

  // Properties of independent versioning

  /** A project named by the selection that has no `version` target yet ends
      up with exactly `{ builder: '@jscutlery/semver:version', options:
      { syncVersions: false } }` added to its targets; a project not named is
      unchanged; so the projects that change are exactly the selected ones. */
  lemma SelectedProjectsGainVersionTarget(ws: ProjectMap, selected: string -> bool, onTarget: (Target, Target) -> Option<Target>)
    requires ws.WellFormed()
    requires forall n :: n in ws.byName && selected(n) ==> VersionTargetName !in ws.byName[n].targets
    ensures VersionTargets(ws, selected, onTarget).Some?
    ensures forall n :: n in ws.byName ==>
      (VersionTargets(ws, selected, onTarget).value.byName[n] != ws.byName[n] <==> selected(n))
    ensures forall n :: n in ws.byName && selected(n) ==>
      var p := VersionTargets(ws, selected, onTarget).value.byName[n];
      && p.targets == ws.byName[n].targets["version" := Target("@jscutlery/semver:version", map["syncVersions" := JBool(false)])]
      && p.root == ws.byName[n].root
      && p.extensions == ws.byName[n].extensions
  {
  }

  /** Only the selection's answers on existing projects matter: two
      selections that agree on every project name give the same update. */
  lemma SelectionMattersOnlyOnProjects(ws: ProjectMap, p: string -> bool, q: string -> bool, onTarget: (Target, Target) -> Option<Target>)
    requires ws.WellFormed()
    requires forall n :: n in ws.byName ==> (p(n) <==> q(n))
    ensures VersionTargets(ws, p, onTarget) == VersionTargets(ws, q, onTarget)
  {
    var a, b := VersionTargets(ws, p, onTarget), VersionTargets(ws, q, onTarget);
    if a.Some? && b.Some? {
      forall n | n in ws.byName ensures a.value.byName[n] == b.value.byName[n] {
        if p(n) {
          assert Some(a.value.byName[n]) == WithVersionTarget(ws.byName[n], onTarget) == Some(b.value.byName[n]);
        }
      }
      assert a.value.byName == b.value.byName;
    }
  }

  /** Requested names that are not projects of the workspace are ignored,
      without an error. */
  lemma UnknownNamesIgnored(ws: ProjectMap, requested: seq<string>, unknown: seq<string>, onTarget: (Target, Target) -> Option<Target>)
    requires ws.WellFormed()
    requires forall i :: 0 <= i < |unknown| ==> unknown[i] !in ws.byName
    ensures FromSchema(ws, SchemaOptions(false, requested + unknown), onTarget) == FromSchema(ws, SchemaOptions(false, requested), onTarget)
  {
    assert forall n :: n in ws.byName ==> n !in unknown;
    SelectionMattersOnlyOnProjects(ws, Includes(requested + unknown), Includes(requested), onTarget);
  }

  /** A list made only of unknown names leaves the workspace as it was. */
  lemma OnlyUnknownNamesChangeNothing(ws: ProjectMap, requested: seq<string>, onTarget: (Target, Target) -> Option<Target>)
    requires ws.WellFormed()
    requires forall i :: 0 <= i < |requested| ==> requested[i] !in ws.byName
    ensures FromSchema(ws, SchemaOptions(false, requested), onTarget) == Some(ws)
  {
    var r := FromSchema(ws, SchemaOptions(false, requested), onTarget);
    assert forall n :: n in ws.byName ==> n !in requested;
    assert r.Some?;
    assert r.value.byName == ws.byName;
  }

  // Properties of the prompt

  /** Confirming a list of all-checked choices submits every choice's name,
      in order. */
  lemma {:induction false} AllCheckedNames(choices: seq<Choice>)
    requires forall i :: 0 <= i < |choices| ==> choices[i].checked
    ensures |CheckedNames(choices)| == |choices|
    ensures forall i :: 0 <= i < |choices| ==> CheckedNames(choices)[i] == choices[i].name
  {
    if choices != [] {
      AllCheckedNames(choices[1..]);
    }
  }

  /** Confirming the prompt as offered submits the name of every project of
      the workspace, in workspace order. */
  lemma ConfirmingDefaultSubmitsAllNames(ws: ProjectMap)
    requires ws.WellFormed()
    ensures CheckedNames(CreatePrompt(ListProjects(ws)).choices) == ws.names
  {
    AllCheckedNames(CreatePrompt(ListProjects(ws)).choices);
  }

  /** That answer versions every project, the same as a selection that
      accepts any name. */
  lemma AllNamesSelectAll(ws: ProjectMap, onTarget: (Target, Target) -> Option<Target>)
    requires ws.WellFormed()
    ensures FromPrompt(ws, Answers(ws.names), onTarget).1 == VersionTargets(ws, AnyName, onTarget)
  {
    SelectionMattersOnlyOnProjects(ws, Includes(ws.names), AnyName, onTarget);
  }

  // Properties of `ngAdd`

  /** Synced versioning adds exactly one project, `workspace`, rooted at `.`,
      whose one target `version` runs the semver builder with
      `syncVersions: true`; it appends it to the order, leaves every other
      project as it was, asks nothing and records `workspace: { tags: [] }`
      in nx.json. */
  lemma SyncedAddsWorkspaceProject(options: SchemaOptions, ws: ProjectMap, nx: NxJson, answers: Answers, clashes: Clashes)
    requires ws.WellFormed() && options.syncVersions
    requires "workspace" !in ws.byName
    ensures var out := NgAddOutcome(options, ws, nx, answers, clashes);
      && out.asked == None
      && out.after.Some?
      && out.after.value.workspace.names == ws.names + ["workspace"]
      && out.after.value.workspace.byName.Keys == ws.byName.Keys + {"workspace"}
      && (forall n :: n in ws.byName ==> out.after.value.workspace.byName[n] == ws.byName[n])
      && out.after.value.workspace.byName["workspace"] ==
           Project(".", map["version" := Target("@jscutlery/semver:version", map["syncVersions" := JBool(true)])], map[])
      && out.after.value.nx == WithWorkspaceTags(nx)
  {
  }

  /** In synced versioning the project list and the prompt's answer play no
      part, and a version target is never added to an existing project. */
  lemma SyncedIgnoresProjectList(options: SchemaOptions, others: seq<string>, ws: ProjectMap, nx: NxJson,
                                 answers: Answers, otherAnswers: Answers, clashes: Clashes)
    requires ws.WellFormed() && options.syncVersions
    ensures NgAddOutcome(options, ws, nx, answers, clashes) == NgAddOutcome(options.(projects := others), ws, nx, otherAnswers, clashes)
    ensures NgAddOutcome(options, ws, nx, answers, clashes).asked == None
    ensures var after := NgAddOutcome(options, ws, nx, answers, clashes).after;
      after.Some? ==> forall n :: n in ws.byName && n != "workspace" ==> after.value.workspace.byName[n] == ws.byName[n]
  {
  }

  /** Independent versioning with a list: nothing is asked, nx.json and the
      set and order of projects are kept, and exactly the listed projects
      change, each gaining the independent `version` target. */
  lemma ExplicitListVersionsListedProjects(options: SchemaOptions, ws: ProjectMap, nx: NxJson, answers: Answers, clashes: Clashes)
    requires ws.WellFormed() && !options.syncVersions && |options.projects| > 0
    requires forall n :: n in ws.byName && n in options.projects ==> VersionTargetName !in ws.byName[n].targets
    ensures var out := NgAddOutcome(options, ws, nx, answers, clashes);
      && out.asked == None
      && out.after.Some?
      && out.after.value.nx == nx
      && out.after.value.workspace.names == ws.names
      && out.after.value.workspace.byName.Keys == ws.byName.Keys
      && (forall n :: n in ws.byName ==> (out.after.value.workspace.byName[n] != ws.byName[n] <==> n in options.projects))
      && (forall n :: n in ws.byName && n in options.projects ==>
            out.after.value.workspace.byName[n].targets["version"] == VersionTarget(false))
  {
    SelectedProjectsGainVersionTarget(ws, Includes(options.projects), clashes.onTarget);
  }

  /** Independent versioning with an empty list asks one checkbox question
      with one pre-checked choice per project, in workspace order. */
  lemma EmptyListPrompts(options: SchemaOptions, ws: ProjectMap, nx: NxJson, answers: Answers, clashes: Clashes)
    requires ws.WellFormed() && !options.syncVersions && options.projects == []
    ensures var asked := NgAddOutcome(options, ws, nx, answers, clashes).asked;
      && asked.Some?
      && asked.value.kind == "checkbox"
      && asked.value.message == "Which projects would you like to version independently?"
      && |asked.value.choices| == |ws.names|
      && forall i :: 0 <= i < |ws.names| ==> asked.value.choices[i] == Choice(ws.names[i], true)
  {
  }

  /** After the prompt, exactly the projects named in the answer change,
      each gaining the independent `version` target; nx.json is kept. */
  lemma AnswerVersionsNamedProjects(options: SchemaOptions, ws: ProjectMap, nx: NxJson, answers: Answers, clashes: Clashes)
    requires ws.WellFormed() && !options.syncVersions && options.projects == []
    requires forall n :: n in ws.byName && n in answers.projects ==> VersionTargetName !in ws.byName[n].targets
    ensures var out := NgAddOutcome(options, ws, nx, answers, clashes);
      && out.after.Some?
      && out.after.value.nx == nx
      && out.after.value.workspace.names == ws.names
      && (forall n :: n in ws.byName ==> (out.after.value.workspace.byName[n] != ws.byName[n] <==> n in answers.projects))
      && (forall n :: n in ws.byName && n in answers.projects ==>
            out.after.value.workspace.byName[n].targets["version"] == VersionTarget(false))
  {
    SelectedProjectsGainVersionTarget(ws, Includes(answers.projects), clashes.onTarget);
  }
}
