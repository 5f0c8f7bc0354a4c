/** The devkit's in-memory workspace, as far as the `ng-add` schematic uses it:
    an insertion-ordered collection of projects, each with a root, a collection
    of targets and the remaining properties of its definition. */
module Workspaces {
  import opened JsonValues

  /** A target: the builder that runs it and its options bag, passed through
      without being interpreted. */
  datatype Target = Target(builder: string, options: map<string, Json>)

  /** A project definition. `extensions` holds every property other than the
      root and the targets. */
  datatype Project = Project(root: string, targets: map<string, Target>, extensions: map<string, Json>)

  /** What the devkit collections do when `add` is given a name they already
      hold. The devkit is not part of this model, so its policy is an input:
      given the entry already there and the one being added, `Some(kept)` is the
      entry the collection ends up holding under that name, and `None` means the
      collection refuses, which makes the enclosing workspace update fail. */
  datatype Clashes = Clashes(
    onTarget: (Target, Target) -> Option<Target>,
    onProject: (Project, Project) -> Option<Project>)

  /** Projects by name, with the order in which the workspace lists them. */
  datatype ProjectMap = ProjectMap(names: seq<string>, byName: map<string, Project>) {

    /** Every name is listed exactly once and the listed names are the keys. */
    predicate WellFormed() {
      && (forall i, j :: 0 <= i < j < |names| ==> names[i] != names[j])
      && (forall n | n in byName :: n in names)
      && (forall i | 0 <= i < |names| :: names[i] in byName)
    }
  }

  /** `project.targets.add({ name, ...t })`: the project gains the target under
      `name`; a name already taken is settled by `onTarget`. Nothing else of the
      project changes. */
  function AddTarget(p: Project, name: string, t: Target, onTarget: (Target, Target) -> Option<Target>): (r: Option<Project>)
    ensures r.Some? ==> r.value.targets.Keys == p.targets.Keys + {name}
    ensures name !in p.targets ==> r.Some? && r.value.targets[name] == t
    ensures name in p.targets ==> (r.Some? <==> onTarget(p.targets[name], t).Some?)
    ensures name in p.targets && r.Some? ==> r.value.targets[name] == onTarget(p.targets[name], t).value
    ensures r.Some? ==> r.value.root == p.root && r.value.extensions == p.extensions
    ensures r.Some? ==> forall k :: k in p.targets && k != name ==> r.value.targets[k] == p.targets[k]
  {
    if name !in p.targets then
      Some(p.(targets := p.targets[name := t]))
    else
      match onTarget(p.targets[name], t)
      case None => None
      case Some(kept) => Some(p.(targets := p.targets[name := kept]))
  }

  /** `workspace.projects.add({ name, ...p })`: a new name is appended to the
      order; a name already taken is settled by `onProject` and keeps its place.
      Every other project is left as it was. */
  function InsertProject(m: ProjectMap, name: string, p: Project, onProject: (Project, Project) -> Option<Project>): (r: Option<ProjectMap>)
    requires m.WellFormed()
    ensures name !in m.byName ==> r == Some(ProjectMap(m.names + [name], m.byName[name := p]))
    ensures r.Some? ==> r.value.WellFormed() && r.value.byName.Keys == m.byName.Keys + {name}
    ensures name in m.byName ==> (r.Some? <==> onProject(m.byName[name], p).Some?)
    ensures name in m.byName && r.Some? ==> r.value.names == m.names && r.value.byName[name] == onProject(m.byName[name], p).value
    ensures r.Some? ==> forall n :: n in m.byName && n != name ==> r.value.byName[n] == m.byName[n]
  {
    if name !in m.byName then
      Some(ProjectMap(m.names + [name], m.byName[name := p]))
    else
      match onProject(m.byName[name], p)
      case None => None
      case Some(kept) => Some(ProjectMap(m.names, m.byName[name := kept]))
  }

  /** The workspace object that `updateWorkspace` hands to its callback, which
      changes it in place. */
  class Workspace {
    var names: seq<string>
    var projects: map<string, Project>

    ghost predicate Valid()
      reads this
    {
      Value().WellFormed()
    }

    /** The projects this workspace holds, as a value. */
    function Value(): ProjectMap
      reads this
    {
      ProjectMap(names, projects)
    }

    constructor (m: ProjectMap)
      requires m.WellFormed()
      ensures Valid() && Value() == m
    {
      names := m.names;
      projects := m.byName;
    }

    /** `workspace.projects.add`. On a refusal the workspace is left as it was. */
    method AddProject(name: string, p: Project, onProject: (Project, Project) -> Option<Project>) returns (ok: bool)
      requires Valid()
      modifies this
      ensures Valid()
      ensures ok == InsertProject(old(Value()), name, p, onProject).Some?
      ensures ok ==> Value() == InsertProject(old(Value()), name, p, onProject).value
      ensures !ok ==> Value() == old(Value())
    {
      var r := InsertProject(Value(), name, p, onProject);
      ok := r.Some?;
      if ok {
        names, projects := r.value.names, r.value.byName;
      }
    }
  }
}
