/**
 * The program's state and its top-level run (bin/index.js lines 83-145
 * and 177-209): the filesystem, the process's working directory and the
 * child processes started so far, changed in place by `createProject`,
 * `createDirectoryContents`, `postProcess` and `createGitRepo`, in the
 * order the `prompt(...).then` handler calls them.
 */
module Scaffold {
  import opened Wrappers
  import opened Paths
  import opened Fs
  import opened Template
  import opened Copier
  import opened Process
  import opened Questions

  /**
   * What is fixed at startup or lies outside the program: CURR_DIR (line
   * 18), the templates under `templates/` by name (line 19), the exit
   * status of every command line, and `render` from `./utils/template`.
   */
  datatype Env = Env(
    startDir: Path,
    templates: map<string, seq<Entry>>,
    status: Command -> Exit,
    render: (string, string) -> string)

  /** The mutable state: the filesystem, `process.cwd()`, and the child processes started, in order. */
  datatype World = World(files: FileMap, workDir: Path, spawned: seq<Spawn>)

  /** The state after a step, and the value (or absence of an exception) it reports. */
  datatype Step = Step(world: World, ok: bool)

  /**
   * How the handler ends: it returns early when the folder exists or the
   * post-processing fails; a template that cannot be read, or a copy
   * call that throws, rejects its promise; otherwise it runs to the end.
   */
  datatype Outcome = FolderExists | TemplateUnreadable | CopyFailed | InstallFailed | Completed

  datatype Run = Run(world: World, outcome: Outcome)

  /** `isNode` (lines 95-97): the template has an entry `package.json` at its root. */
  predicate IsNode(tpl: seq<Entry>)
  {
    HasEntry(tpl, "package.json")
  }

  /** The installer postProcessNode ends up running, as the code is written. */
  function Installer(env: Env): Command
  {
    if Succeeded(env.status(WhichYarn)) then YarnInstall else NpmInstall
  }

  /**
   * `postProcessNode` (lines 116-145): change into the target, ask `which
   * yarn`, choose the install command, run it there; the result is whether
   * the install exited with 0, or `true` when no command was chosen.
   */
  function PostProcessNodeSpec(env: Env, w: World, target: Path): Step
  {
    var probed := World(w.files, target, w.spawned + [Spawn(WhichYarn, target)]);
    match SelectInstaller(Succeeded(env.status(WhichYarn)), Succeeded(env.status(WhichNpm)))
    case None => Step(probed, true)
    case Some(c) => Step(probed.(spawned := probed.spawned + [Spawn(c, target)]), Succeeded(env.status(c)))
  }

  /** `postProcess` (lines 109-114). */
  function PostProcessSpec(env: Env, w: World, tpl: seq<Entry>, target: Path): Step
  {
    if IsNode(tpl) then PostProcessNodeSpec(env, w, target) else Step(w, true)
  }

  /**
   * Without `package.json` post-processing does nothing and succeeds.  With
   * it, it moves into the target, runs `which yarn` and then the installer
   * there, touches no file, and fails exactly when the install fails.
   */
  lemma PostProcessOutcome(env: Env, w: World, tpl: seq<Entry>, target: Path)
    ensures !IsNode(tpl) ==> PostProcessSpec(env, w, tpl, target) == Step(w, true)
    ensures IsNode(tpl) ==>
      var s := PostProcessSpec(env, w, tpl, target);
      && s.world == World(w.files, target, w.spawned + [Spawn(WhichYarn, target), Spawn(Installer(env), target)])
      && (s.ok <==> Succeeded(env.status(Installer(env))))
  {
    InstallerChoice(Succeeded(env.status(WhichYarn)), Succeeded(env.status(WhichNpm)));
  }

  /** The path `join(CURR_DIR, projectName)` of line 183. */
  function TargetPath(env: Env, answers: map<string, string>, flags: map<string, string>): Path
    requires Answered(answers, flags)
  {
    MergedHasBothKeys(answers, flags);
    Join(env.startDir, Merge(answers, flags)["name"])
  }

  /** The whole handler of lines 177-209 on the merged answers. */
  function ScaffoldSpec(env: Env, w: World, answers: map<string, string>, flags: map<string, string>): Run
    requires Answered(answers, flags)
  {
    MergedHasBothKeys(answers, flags);
    var merged := Merge(answers, flags);
    var name := merged["name"];
    var choice := merged["template"];
    var target := TargetPath(env, answers, flags);
    if target in w.files then Run(w, FolderExists)
    else
      var created := w.(files := w.files[target := DirEntry]);
      if choice !in env.templates then Run(created, TemplateUnreadable)
      else
        var tpl := env.templates[choice];
        var copy := Execute(created.files, env.startDir, Ops(tpl, Join([], name), env.render));
        var copied := created.(files := copy.fs);
        if !copy.ok then Run(copied, CopyFailed)
        else
          var post := PostProcessSpec(env, copied, tpl, target);
          if !post.ok then Run(post.world, InstallFailed)
          else Run(post.world.(spawned := post.world.spawned + GitSpawns(env.status, post.world.workDir)), Completed)
  }

  /** The child processes a run started. */
  function NewSpawns(w: World, r: Run): seq<Spawn>
  {
    if |w.spawned| <= |r.world.spawned| then r.world.spawned[|w.spawned|..] else []
  }

  /** An existing target folder stops the run before any file is written or any process started. */
  lemma ExistingFolderStops(env: Env, w: World, answers: map<string, string>, flags: map<string, string>)
    requires Answered(answers, flags)
    requires TargetPath(env, answers, flags) in w.files
    ensures ScaffoldSpec(env, w, answers, flags) == Run(w, FolderExists)
  {
  }

  /**
   * An empty `--name` lets the question be asked but then overrides the
   * prompted answer, so the target is CURR_DIR itself and the run stops.
   */
  lemma EmptyNameFlagStops(env: Env, w: World, answers: map<string, string>, flags: map<string, string>)
    requires Answered(answers, flags)
    requires "name" in flags && flags["name"] == ""
    requires IsDir(w.files, env.startDir)
    ensures ScaffoldSpec(env, w, answers, flags) == Run(w, FolderExists)
  {
    FlagNameWins(answers, flags);
  }

  /**
   * An empty `--template` lets the question be asked but then overrides
   * the chosen template, so the listing copied is the one under key `""`:
   * `join(__dirname, "templates", "")` is the directory `templates/`
   * itself.  With a fresh target the run gets past the template check.
   */
  lemma EmptyTemplateFlagUsesAll(env: Env, w: World, answers: map<string, string>, flags: map<string, string>)
    requires Answered(answers, flags)
    requires "template" in flags && flags["template"] == ""
    requires "" in env.templates && TargetPath(env, answers, flags) !in w.files
    ensures Merge(answers, flags)["template"] == ""
    ensures ScaffoldSpec(env, w, answers, flags).outcome != TemplateUnreadable
    ensures ScaffoldSpec(env, w, answers, flags).outcome != FolderExists
  {
    FlagTemplateWins(answers, flags);
  }

  /**
   * The key `""` stands for `templates/` itself: one directory entry per
   * other template, holding that template's listing; its names are the
   * CHOICES of line 19.
   */
  predicate TemplatesRoot(env: Env)
  {
    && "" in env.templates
    && (forall i :: 0 <= i < |env.templates[""]| ==>
          var e := env.templates[""][i];
          e.name != "" && e.name in env.templates && e.node == Dir(env.templates[e.name]))
    && forall n :: n in env.templates && n != "" ==> n in Names(env.templates[""])
  }

  /** With an empty `--template`, every template is copied as a directory of the new project. */
  lemma EmptyTemplateCopiesEveryTemplate(env: Env, name: string, choice: string)
    requires TemplatesRoot(env) && WellFormed(env.templates[""])
    requires choice in env.templates && choice != ""
    ensures MakeDir(Join([], name) + [choice]) in MakeDirs(Ops(env.templates[""], Join([], name), env.render))
  {
    var root := env.templates[""];
    var i := LookupRootName(root, choice);
    assert DirAt(root, [choice]);
    DirectoriesMatchTemplate(root, Join([], name), env.render, [choice]);
  }

  /** Only the run's own post-processing and git steps start processes, appended to the ones before. */
  lemma SpawnsOnlyAppend(env: Env, w: World, answers: map<string, string>, flags: map<string, string>)
    requires Answered(answers, flags)
    ensures var r := ScaffoldSpec(env, w, answers, flags);
      && |w.spawned| <= |r.world.spawned| && r.world.spawned[..|w.spawned|] == w.spawned
      && (r.outcome in {FolderExists, TemplateUnreadable, CopyFailed} ==> NewSpawns(w, r) == [])
  {
  }

  /** Post-processing only appends processes to the ones before, and none of them is `git init`. */
  lemma PostProcessStartsNoGit(env: Env, w: World, tpl: seq<Entry>, target: Path)
    ensures var post := PostProcessSpec(env, w, tpl, target).world;
      && |w.spawned| <= |post.spawned| && post.spawned[..|w.spawned|] == w.spawned
      && forall s :: s in post.spawned[|w.spawned|..] ==> s.command != GitInit
  {
    PostProcessOutcome(env, w, tpl, target);
    var post := PostProcessSpec(env, w, tpl, target).world;
    if IsNode(tpl) {
      assert post.spawned[|w.spawned|..] == [Spawn(WhichYarn, target), Spawn(Installer(env), target)];
    } else {
      assert post.spawned[|w.spawned|..] == [];
    }
  }

  /**
   * `git init` is started if and only if the run completes, and completing
   * means post-processing succeeded: no `package.json`, or an install
   * that exited with 0.
   */
  lemma GitOnlyAfterPostProcess(env: Env, w: World, answers: map<string, string>, flags: map<string, string>)
    requires Answered(answers, flags)
    ensures var r := ScaffoldSpec(env, w, answers, flags);
      && ((exists s :: s in NewSpawns(w, r) && s.command == GitInit) <==> r.outcome == Completed)
  {
    var r := ScaffoldSpec(env, w, answers, flags);
    MergedHasBothKeys(answers, flags);
    var merged := Merge(answers, flags);
    var target := TargetPath(env, answers, flags);
    if target !in w.files && merged["template"] in env.templates {
      var tpl := env.templates[merged["template"]];
      var created := w.(files := w.files[target := DirEntry]);
      var copy := Execute(created.files, env.startDir, Ops(tpl, Join([], merged["name"]), env.render));
      if copy.ok {
        var copied := created.(files := copy.fs);
        var post := PostProcessSpec(env, copied, tpl, target);
        PostProcessStartsNoGit(env, copied, tpl, target);
        var before := post.world.spawned[|w.spawned|..];
        if post.ok {
          var git := GitSpawns(env.status, post.world.workDir);
          assert r.world.spawned == post.world.spawned + git;
          assert NewSpawns(w, r) == before + git;
          assert git[0] in NewSpawns(w, r);
        } else {
          assert NewSpawns(w, r) == before;
        }
      }
    }
  }

  /** A completed run went through a successful install whenever the template has `package.json`. */
  lemma CompletedMeansInstalled(env: Env, w: World, answers: map<string, string>, flags: map<string, string>)
    requires Answered(answers, flags)
    requires ScaffoldSpec(env, w, answers, flags).outcome == Completed
    ensures var tpl := env.templates[Merge(answers, flags)["template"]];
      IsNode(tpl) ==> Succeeded(env.status(Installer(env)))
  {
    MergedHasBothKeys(answers, flags);
    var merged := Merge(answers, flags);
    var target := TargetPath(env, answers, flags);
    var tpl := env.templates[merged["template"]];
    var created := w.(files := w.files[target := DirEntry]);
    var copy := Execute(created.files, env.startDir, Ops(tpl, Join([], merged["name"]), env.render));
    PostProcessOutcome(env, created.(files := copy.fs), tpl, target);
  }

  /**
   * The git commands of a completed run run in the new project only when
   * the template has `package.json`, since only postProcessNode changes
   * directory; otherwise they run in the directory the program started in.
   */
  lemma GitDirectory(env: Env, w: World, answers: map<string, string>, flags: map<string, string>)
    requires Answered(answers, flags)
    requires ScaffoldSpec(env, w, answers, flags).outcome == Completed
    ensures var r := ScaffoldSpec(env, w, answers, flags);
      var tpl := env.templates[Merge(answers, flags)["template"]];
      var gitDir := if IsNode(tpl) then TargetPath(env, answers, flags) else w.workDir;
      && r.world.workDir == gitDir
      && exists k :: 0 <= k < |r.world.spawned| && r.world.spawned[k] == Spawn(GitInit, gitDir)
  {
    MergedHasBothKeys(answers, flags);
    var merged := Merge(answers, flags);
    var target := TargetPath(env, answers, flags);
    var tpl := env.templates[merged["template"]];
    var created := w.(files := w.files[target := DirEntry]);
    var copy := Execute(created.files, env.startDir, Ops(tpl, Join([], merged["name"]), env.render));
    var copied := created.(files := copy.fs);
    PostProcessOutcome(env, copied, tpl, target);
    var post := PostProcessSpec(env, copied, tpl, target);
    var r := ScaffoldSpec(env, w, answers, flags);
    assert r.world.spawned == post.world.spawned + GitSpawns(env.status, post.world.workDir);
    assert r.world.spawned[|post.world.spawned|] == Spawn(GitInit, post.world.workDir);
  }

  /**
   * Flags win over prompted answers: any run that gets past the folder
   * check leaves the project directory at CURR_DIR joined with the `--name`
   * flag when one was given, and with the prompted name otherwise.
   */
  lemma ProjectNamedByFlag(env: Env, w: World, answers: map<string, string>, flags: map<string, string>)
    requires Answered(answers, flags)
    requires ScaffoldSpec(env, w, answers, flags).outcome != FolderExists
    ensures var name := if "name" in flags then flags["name"] else answers["name"];
      IsDir(ScaffoldSpec(env, w, answers, flags).world.files, Join(env.startDir, name))
  {
    FlagNameWins(answers, flags);
    MergedHasBothKeys(answers, flags);
    var merged := Merge(answers, flags);
    var target := TargetPath(env, answers, flags);
    var created := w.(files := w.files[target := DirEntry]);
    if merged["template"] in env.templates {
      var tpl := env.templates[merged["template"]];
      ExecuteKeepsDirs(created.files, env.startDir, Ops(tpl, Join([], merged["name"]), env.render), target);
    }
  }

  /**
   * End to end: a fresh target, a readable, well-formed template without a
   * `gitignore`/`.gitignore` clash, and the copy completes; the files are
   * then exactly the old ones, the project directory and the template's
   * mirror beneath it, whatever the processes do.
   */
  lemma FreshProjectMirrorsTemplate(env: Env, w: World, answers: map<string, string>, flags: map<string, string>)
    requires Answered(answers, flags)
    requires IsDir(w.files, env.startDir)
    requires var name := Merge(answers, flags)["name"];
      name != "" && Merge(answers, flags)["template"] in env.templates
    requires var tpl := env.templates[Merge(answers, flags)["template"]];
      WellFormed(tpl) && NoIgnoreClash(tpl)
    requires var target := TargetPath(env, answers, flags);
      target !in w.files && forall k :: k in w.files ==> !StrictlyUnder(k, target)
    ensures var r := ScaffoldSpec(env, w, answers, flags);
      var name := Merge(answers, flags)["name"];
      var tpl := env.templates[Merge(answers, flags)["template"]];
      && r.outcome in {InstallFailed, Completed}
      && r.world.files == w.files[TargetPath(env, answers, flags) := DirEntry] + Mirror(tpl, env.startDir, [name], env.render)
  {
    MergedHasBothKeys(answers, flags);
    var merged := Merge(answers, flags);
    var name := merged["name"];
    var target := TargetPath(env, answers, flags);
    var tpl := env.templates[merged["template"]];
    assert target == env.startDir + [name];
    assert Join([], name) == [name];
    var fs1 := w.files[target := DirEntry];
    assert Room(fs1, env.startDir + [name], tpl);
    CopyBuildsMirror(fs1, env.startDir, [name], tpl, env.render);
    PostProcessOutcome(env, w.(files := fs1 + Mirror(tpl, env.startDir, [name], env.render)), tpl, target);
  }

  class Scaffolder {
    const env: Env
    var files: FileMap
    var workDir: Path
    var spawned: seq<Spawn>

    /** CURR_DIR is a directory of the filesystem. */
    ghost predicate Valid()
      reads this
    {
      IsDir(files, env.startDir)
    }

    function State(): World
      reads this
    {
      World(files, workDir, spawned)
    }

    constructor (env: Env, files: FileMap)
      requires IsDir(files, env.startDir)
      ensures Valid()
      ensures this.env == env && State() == World(files, env.startDir, [])
    {
      this.env := env;
      this.files := files;
      this.workDir := env.startDir;
      this.spawned := [];
    }

    /** `mkdirSync(p)`; `false` where it would throw. */
    method MakeDirectory(p: Path) returns (ok: bool)
      requires Valid()
      modifies this`files
      ensures Valid()
      ensures ok == AfterMkDir(old(files), p).Some?
      ensures files == if ok then AfterMkDir(old(files), p).value else old(files)
    {
      ok := |p| > 0 && p !in files && IsDir(files, Parent(p));
      if ok {
        files := files[p := DirEntry];
      }
    }

    /** `writeFileSync(p, text, "utf8")`; `false` where it would throw. */
    method WriteFile(p: Path, text: string) returns (ok: bool)
      requires Valid()
      modifies this`files
      ensures Valid()
      ensures ok == AfterWrite(old(files), p, text).Some?
      ensures files == if ok then AfterWrite(old(files), p, text).value else old(files)
    {
      ok := |p| > 0 && !IsDir(files, p) && IsDir(files, Parent(p));
      if ok {
        files := files[p := FileEntry(text)];
      }
    }

    /** `runCommand` (lines 41-54): start the child in the current directory; resolve on exit code 0. */
    method RunCommand(c: Command) returns (ok: bool)
      modifies this`spawned
      ensures spawned == old(spawned) + [Spawn(c, workDir)]
      ensures ok == Succeeded(env.status(c))
    {
      spawned := spawned + [Spawn(c, workDir)];
      ok := env.status(c) == Exited(0);
    }

    /** `useYarn` (lines 99-102): `which yarn` exits with 0. */
    method UseYarn() returns (found: bool)
      modifies this`spawned
      ensures spawned == old(spawned) + [Spawn(WhichYarn, workDir)]
      ensures found == Succeeded(env.status(WhichYarn))
    {
      spawned := spawned + [Spawn(WhichYarn, workDir)];
      found := env.status(WhichYarn) == Exited(0);
    }

    /** `createGitRepo` (lines 56-65): a failing step is caught and ends the sequence. */
    method CreateGitRepo()
      modifies this`spawned
      ensures spawned == old(spawned) + GitSpawns(env.status, workDir)
    {
      var ok := RunCommand(GitInit);
      if ok {
        ok := RunCommand(GitAdd);
        if ok {
          ok := RunCommand(GitCommit);
        }
      }
    }

    /**
     * `createProject` (lines 83-93): refuses an existing path and leaves
     * the filesystem alone, else creates exactly that one directory.  The
     * caller passes `join(CURR_DIR, name)`, CURR_DIR itself or a child of it.
     */
    method CreateProject(projectPath: Path) returns (created: bool)
      requires Valid()
      requires projectPath == env.startDir || (|projectPath| > 0 && Parent(projectPath) == env.startDir)
      modifies this`files
      ensures Valid()
      ensures created == (projectPath !in old(files))
      ensures files == if created then old(files)[projectPath := DirEntry] else old(files)
    {
      if projectPath in files {
        return false;
      }
      var ok := MakeDirectory(projectPath);
      created := true;
    }

    /**
     * `createDirectoryContents(templatePath, projectName)` (lines 147-175)
     * for the listing `dir` of `templatePath`: the calls `Ops` describes,
     * run in order until one throws.
     */
    method CreateDirectoryContents(dir: seq<Entry>, projectName: Path) returns (ok: bool)
      requires Valid()
      modifies this`files
      ensures Valid()
      ensures Exec(files, ok) == Execute(old(files), env.startDir, Ops(dir, projectName, env.render))
      decreases dir
    {
      ghost var start := files;
      var i := 0;
      while i < |dir|
        invariant 0 <= i <= |dir|
        invariant Valid()
        invariant Execute(start, env.startDir, Ops(dir[..i], projectName, env.render)) == Exec(files, true)
        decreases |dir| - i
      {
        ghost var before := files;
        var file := dir[i].name;
        assert dir[..i + 1] == dir[..i] + [dir[i]];
        OpsAppend(dir[..i], [dir[i]], projectName, env.render);
        assert Ops([dir[i]], projectName, env.render) == EntryOps(dir[i], projectName, env.render);
        ExecuteAppend(start, env.startDir, Ops(dir[..i], projectName, env.render), EntryOps(dir[i], projectName, env.render));
        ghost var done := Ops(dir[..i + 1], projectName, env.render);
        ghost var later := Ops(dir[i + 1..], projectName, env.render);
        assert dir == dir[..i + 1] + dir[i + 1..];
        OpsAppend(dir[..i + 1], dir[i + 1..], projectName, env.render);
        ExecuteAppend(start, env.startDir, done, later);
        var step := true;
        match dir[i].node {
          case File(contents) =>
            var text := env.render(contents, PathString(projectName));
            if file == "gitignore" {
              file := ".gitignore";
            }
            assert env.startDir + projectName + [file] == env.startDir + (projectName + [TargetName(dir[i].name)]);
            step := WriteFile(env.startDir + projectName + [file], text);
          case Dir(children) =>
            assert env.startDir + projectName + [file] == env.startDir + (projectName + [file]);
            step := MakeDirectory(env.startDir + projectName + [file]);
            if step {
              ExecuteAppend(before, env.startDir, [MakeDir(projectName + [file])], Ops(children, projectName + [file], env.render));
              step := CreateDirectoryContents(children, projectName + [file]);
            }
          case Other =>
        }
        if !step {
          return false;
        }
        i := i + 1;
      }
      assert dir[..i] == dir;
      ok := true;
    }

    /** `postProcessNode` (lines 116-145), its locals `cmd` and `args` set step by step. */
    method PostProcessNode(targetPath: Path) returns (ok: bool)
      modifies this`workDir, this`spawned
      ensures Step(State(), ok) == PostProcessNodeSpec(env, old(State()), targetPath)
    {
      workDir := targetPath;
      var cmd := "";
      var args: seq<string> := [];
      var yarnFound := UseYarn();
      if yarnFound {
        cmd := "yarn";
      } else if Truthy(JsFunction("useNpm")) {
        cmd := "npm";
        args := NpmArgs;
      }
      if Truthy(JsString(cmd)) {
        ok := RunCommand(Command(cmd, args));
        if !ok {
          return false;
        }
      } else {
        // "No yarn or npm found. Cannot run installation."
      }
      ok := true;
    }

    /** `postProcess` (lines 109-114): only a template with `package.json` is post-processed. */
    method PostProcess(template: seq<Entry>, targetPath: Path) returns (ok: bool)
      modifies this`workDir, this`spawned
      ensures Step(State(), ok) == PostProcessSpec(env, old(State()), template, targetPath)
    {
      if HasEntry(template, "package.json") {
        ok := PostProcessNode(targetPath);
        return;
      }
      ok := true;
    }

    /**
     * The handler of lines 177-209: merge flags over the answers, create
     * the folder, copy the template, post-process, and only then set up git.
     */
    method Scaffold(answers: map<string, string>, flags: map<string, string>) returns (outcome: Outcome)
      requires Valid()
      requires Answered(answers, flags)
      modifies this
      ensures Valid()
      ensures Run(State(), outcome) == ScaffoldSpec(env, old(State()), answers, flags)
    {
      MergedHasBothKeys(answers, flags);
      var merged := Merge(answers, flags);
      var projectChoice := merged["template"];
      var projectName := merged["name"];
      var targetPath := Join(env.startDir, projectName);

      var created := CreateProject(targetPath);
      if !created {
        return FolderExists;
      }
      if projectChoice !in env.templates {
        return TemplateUnreadable;
      }
      var template := env.templates[projectChoice];
      var copied := CreateDirectoryContents(template, Join([], projectName));
      if !copied {
        return CopyFailed;
      }
      var processed := PostProcess(template, targetPath);
      if !processed {
        return InstallFailed;
      }
      CreateGitRepo();
      return Completed;
    }
  }
}
