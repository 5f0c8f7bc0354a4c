/** How the version builder locates the workspace definition:
    `getWorkspaceDefinition(root)` reads `root/workspace.json` and, when that
    read fails, `root/angular.json`, and hands back the document it read. The
    file system is a map from path to parsed content: a path it does not hold
    is a file whose read fails. */
module VersionUtils {
  import opened JsonValues

  const Encoding := "utf-8"

  /** The workspace file names, most preferred first. */
  const Candidates: seq<string> := ["workspace.json", "angular.json"]

  /** Paths to the parsed content of the files that can be read. */
  type FileSystem = map<string, Json>

  /** One call of `fs.readFile(path, encoding, callback)`. */
  datatype ReadCall = ReadCall(path: string, encoding: string)

  /** The outcome of trying candidates: the document read, if any, and the
      attempts made, in order. */
  datatype Resolution = Resolution(definition: Option<Json>, attempts: seq<ReadCall>)

  /** The path of `file` inside the directory `root`. */
  function Join(root: string, file: string): (path: string)
  {
    root + "/" + file
  }

  /** The read of candidate `file` under `root`. */
  function CandidateRead(root: string, file: string): (call: ReadCall)
  {
    ReadCall(Join(root, file), Encoding)
  }

  /** Trying `files` in order: each is read once until a read succeeds, and
      the first document read is the result. */
  function TryCandidates(root: string, files: seq<string>, fs: FileSystem): (r: Resolution)
    ensures |r.attempts| <= |files|
    ensures files != [] ==> 1 <= |r.attempts|
    ensures r.definition.None? ==> |r.attempts| == |files|
  {
    if files == [] then
      Resolution(None, [])
    else
      var path := Join(root, files[0]);
      if path in fs then
        Resolution(Some(fs[path]), [CandidateRead(root, files[0])])
      else
        var rest := TryCandidates(root, files[1..], fs);
        Resolution(rest.definition, [CandidateRead(root, files[0])] + rest.attempts)
  }

  /** Candidates are read in order, one read each, up to the first that can
      be read; the result is that file's document. When none can be read,
      every candidate has been read once. */
  lemma {:induction false} TryCandidatesOrder(root: string, files: seq<string>, fs: FileSystem)
    ensures var r := TryCandidates(root, files, fs);
      && |r.attempts| <= |files|
      && (files != [] ==> |r.attempts| >= 1)
      && (forall i :: 0 <= i < |r.attempts| ==> r.attempts[i] == CandidateRead(root, files[i]))
      && (forall i :: 0 <= i < |r.attempts| - 1 ==> Join(root, files[i]) !in fs)
      && (r.definition.Some? ==>
            && |r.attempts| >= 1
            && Join(root, files[|r.attempts| - 1]) in fs
            && r.definition.value == fs[Join(root, files[|r.attempts| - 1])])
      && (r.definition.None? ==> |r.attempts| == |files| && forall i :: 0 <= i < |files| ==> Join(root, files[i]) !in fs)
  {
    if files != [] && Join(root, files[0]) !in fs {
      TryCandidatesOrder(root, files[1..], fs);
    }
  }

  /** `getWorkspaceDefinition(root)`: the candidates are read one after the
      other, each attempt recorded, and the first document read is returned.
      A failed read is not reported. */
  method GetWorkspaceDefinition(root: string, fs: FileSystem) returns (definition: Option<Json>, attempts: seq<ReadCall>)
    ensures Resolution(definition, attempts) == TryCandidates(root, Candidates, fs)
  {
    definition, attempts := None, [];
    var i := 0;
    while i < |Candidates|
      invariant 0 <= i <= |Candidates|
      invariant Resumes(TryCandidates(root, Candidates, fs), attempts, TryCandidates(root, Candidates[i..], fs))
      invariant definition.None?
    {
      var path := Join(root, Candidates[i]);
      Step(root, Candidates, i, fs);
      attempts := attempts + [ReadCall(path, Encoding)];
      if path in fs {
        definition := Some(fs[path]);
        return;
      }
      i := i + 1;
    }
  }

  /** `whole` is what remains to be done, `rest`, after the attempts `done`. */
  ghost predicate Resumes(whole: Resolution, done: seq<ReadCall>, rest: Resolution)
  {
    whole == Resolution(rest.definition, done + rest.attempts)
  }

  /** One step of trying candidates, from the `i`-th on. */
  lemma Step(root: string, files: seq<string>, i: nat, fs: FileSystem)
    requires i < |files|
    ensures Join(root, files[i]) in fs ==>
      TryCandidates(root, files[i..], fs) == Resolution(Some(fs[Join(root, files[i])]), [CandidateRead(root, files[i])])
    ensures Join(root, files[i]) !in fs ==>
      TryCandidates(root, files[i..], fs) ==
        var rest := TryCandidates(root, files[i + 1..], fs);
        Resolution(rest.definition, [CandidateRead(root, files[i])] + rest.attempts)
  {
    assert files[i..][1..] == files[i + 1..];
  }

  /** The first read is of `root/workspace.json`, in utf-8; when it succeeds
      it is the only one and its document is the result. */
  lemma WorkspaceJsonFirst(root: string, fs: FileSystem)
    ensures TryCandidates(root, Candidates, fs).attempts[0] == ReadCall(root + "/workspace.json", "utf-8")
    ensures root + "/workspace.json" in fs ==>
      TryCandidates(root, Candidates, fs) == Resolution(Some(fs[root + "/workspace.json"]), [ReadCall(root + "/workspace.json", "utf-8")])
  {
    JoinCandidates(root);
    Step(root, Candidates, 0, fs);
    assert Candidates[0..] == Candidates;
  }

  /** When `workspace.json` cannot be read and `angular.json` can, exactly two
      attempts are made, `workspace.json` then `angular.json`, both in utf-8, and
      the result is `angular.json`'s document: the failure is not surfaced. */
  lemma FallbackToAngularJson(root: string, fs: FileSystem)
    requires root + "/workspace.json" !in fs
    requires root + "/angular.json" in fs
    ensures TryCandidates(root, Candidates, fs) == Resolution(
      Some(fs[root + "/angular.json"]),
      [ReadCall(root + "/workspace.json", "utf-8"), ReadCall(root + "/angular.json", "utf-8")])
  {
    JoinCandidates(root);
    Step(root, Candidates, 0, fs);
    Step(root, Candidates, 1, fs);
    assert Candidates[0..] == Candidates && Candidates[2..] == [];
  }

  lemma JoinCandidates(root: string)
    ensures Join(root, "workspace.json") == root + "/workspace.json"
    ensures Join(root, "angular.json") == root + "/angular.json"
  {
  }

  /** The parsed document the test serves for `angular.json`. */
  function ScenarioDocument(): (doc: Json)
  {
    JObject(map[
      "version" := JNumber(1),
      "projects" := ScenarioProjects()])
  }

  /** The projects `a` and `b` of the test's document. */
  function ScenarioProjects(): (projects: Json)
  {
    JObject(map[
      "a" := JObject(map["root" := JString("packages/a")]),
      "b" := JObject(map["root" := JString("packages/b")])])
  }

  /** The test's scenario: under `/root`, `workspace.json` is missing and
      `angular.json` holds projects `a` (root `packages/a`) and `b` (root
      `packages/b`). The resolver then returns those projects and makes two
      attempts, in order. */
  lemma FallbackScenario(fs: FileSystem)
    requires "/root/workspace.json" !in fs
    requires "/root/angular.json" in fs && fs["/root/angular.json"] == ScenarioDocument()
    ensures var r := TryCandidates("/root", Candidates, fs);
      && r.definition.Some? && r.definition.value.JObject?
      && Get(r.definition.value.fields, "projects") == Some(JObject(map[
           "a" := JObject(map["root" := JString("packages/a")]),
           "b" := JObject(map["root" := JString("packages/b")])]))
      && r.attempts == [ReadCall("/root/workspace.json", "utf-8"), ReadCall("/root/angular.json", "utf-8")]
  {
    assert "/root" + "/workspace.json" == "/root/workspace.json";
    assert "/root" + "/angular.json" == "/root/angular.json";
    FallbackToAngularJson("/root", fs);
  }
}
