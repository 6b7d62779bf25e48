# create-test-app, modelled in Dafny

`create-test-app` is a command-line scaffolder. It asks for a template
and a project name, unless `--template` and `--name` are given as flags.
It refuses a project folder that already exists. It then copies the
template tree into a new folder under the current directory, renaming
`gitignore` to `.gitignore` and passing every file through `render`. A
template with a `package.json` gets its dependencies installed with
yarn, or with npm when `which yarn` fails. Last, a git repository is
initialised and a first commit is made.

This project models that core (`bin/index.js`) and proves what it does:

- `questions.dfy` (`Questions`): the name validator, the `when`
  conditions that skip a question a flag already answers, and the merge
  of flags over prompted answers.
- `paths.dfy` (`Paths`): paths as sequences of components, and `join`.
- `fs.dfy` (`Fs`): the filesystem as a map from paths to files and
  directories, and the running of a sequence of `mkdirSync` and
  `writeFileSync` calls that stops at the first throw. The two calls are
  defined, not proved: `Fs.AfterMkDir` fails when the path exists or its
  parent is not a directory (EEXIST, ENOENT, ENOTDIR) and otherwise adds
  that one directory; `Fs.AfterWrite` fails when the path is a directory
  or its parent is not one (EISDIR, ENOENT, ENOTDIR) and otherwise
  creates or replaces that one file. They play the part for the
  filesystem that `Env.status` plays for child processes.
- `template.dfy` (`Template`): a template tree as `readdirSync` and
  `statSync` see it, lookup by path, and two independent listings of it:
  its regular files and its directories, each proved to list exactly
  what lookup finds.
- `copier.dfy` (`Copier`): `createDirectoryContents` as the sequence of
  calls it makes. It proves:
  - exactly one write per regular file, with the renamed path and the
    rendered text; in a clash-free template no two writes share a
    destination;
  - one `mkdirSync` per directory, at the same relative path, none twice;
  - each directory is created before anything inside it;
  - for a template without a `gitignore`/`.gitignore` clash, the
    destination ends up as an exact mirror of the template, and that
    mirror holds a directory for every template directory, the rendered
    file for every template file, and nothing else.
- `process.dfy` (`Process`): the child processes started, including the
  installer choice as the code makes it, and the git sequence.
- `scaffold.dfy` (`Scaffold`): the program's state in the class
  `Scaffolder`, with these fields:
  - `files`, the filesystem;
  - `workDir`, what `process.cwd()` returns;
  - `spawned`, the child processes started so far, each with the
    directory it ran in.

  Its methods change that state the way `createProject`,
  `createDirectoryContents`, `postProcessNode`, `postProcess`,
  `createGitRepo` and the prompt handler do. Each method is proved equal
  to a pure function (`Execute` of `Ops`, `PostProcessSpec`,
  `ScaffoldSpec`), and the pipeline properties are lemmas about those
  functions.

The outside world enters as inputs. `Env.status` gives the exit status
of every command line: `which yarn`, the installer and the git commands.
`Env.render` is the function from `./utils/template`, left uninterpreted.
`Env.templates` holds the trees under `templates/`, by name. The key
`""` stands for the listing of `templates/` itself, because
`join(__dirname, "templates", "")` drops the empty segment.
`Scaffold.TemplatesRoot` states what that listing holds: one directory
per template, holding that template's tree. The prompt's
answers and the command-line flags are `map<string, string>` parameters.

## Model

| member | source | states |
|---|---|---|
| Questions.MatchesNamePattern | bin/index.js:34 | the regular expression matches exactly the non-empty strings whose every character is a letter, a digit, `-` or `_` |
| Questions.Validate | bin/index.js:33-37 | accepts exactly those strings; every rejection carries the fixed message |
| Questions.EmptyNameRejected | bin/index.js:33-37 | the empty name is rejected with that message |
| Questions.AcceptedNameIsComponent | bin/index.js:34 | an accepted name is non-empty, is not `.` or `..`, and has no `/`, so it is one path component |
| Questions.Merge | bin/index.js:178 | the merge has every key of both maps; a flag's value wins where both have the key; otherwise the answer's value |
| Questions.MergedHasBothKeys | bin/index.js:178-181 | whichever questions were skipped, the merged answers hold `template` and `name` |
| Questions.FlagNameWins | bin/index.js:178-181 | the name used is the `--name` flag whenever it was given, even empty, else the prompted name |
| Questions.FlagTemplateWins | bin/index.js:178-180 | the template used is the `--template` flag whenever it was given, even empty, else the prompted choice |
| Fs.ExecuteAppend | bin/index.js:150-174 | running two call sequences one after the other is running their concatenation; a throw in the first skips the second |
| Fs.ExecuteKeepsDirs | bin/index.js:150-174 | no sequence of these calls removes or replaces a directory |
| Template.FileListPaths | bin/index.js:148-156 | every regular file found by the walk lies below an entry of the template root |
| Template.FileListExact | bin/index.js:148-173 | a file with given contents is found by the walk if and only if looking up its path finds it |
| Template.FileListDistinct | bin/index.js:148-172 | the file walk lists no file twice: no two records share a path |
| Template.DirListExact | bin/index.js:148-172 | a path is listed by the directory walk if and only if looking it up finds a directory |
| Template.DirListDistinct | bin/index.js:148-172 | the directory walk lists no path twice |
| Template.LookupPaths | bin/index.js:148-154 | whatever a lookup finds sits below an entry of the template root |
| Copier.OpsAppend | bin/index.js:150 | the calls for a listing are the calls for its entries, in listing order |
| Copier.WritesFollowFiles | bin/index.js:147-175 | the writes made are one per record of the file walk, in walk order, each at the renamed destination and with contents rendered for the file's relative directory |
| Copier.FileDestsDistinct | bin/index.js:161-164 | in a clash-free template no two regular files have the same destination after the rename |
| Copier.FilesWrittenOnce | bin/index.js:156-164 | every template file is written exactly once: there are as many writes as files and no file is listed twice; in a clash-free template no two writes share a destination |
| Copier.WriteForEveryFile | bin/index.js:156-164 | every template file at path `p` gets a write of its rendered contents at its renamed destination |
| Copier.MakeDirsFollowDirs | bin/index.js:165-172 | the `mkdirSync` calls are exactly one per template directory, in walk order, each at the project path joined with the directory's relative path, names kept as they are |
| Copier.DirectoriesMatchTemplate | bin/index.js:165-172 | the copier creates project path + `q` if and only if the template has a directory at `q`, and never creates one directory twice |
| Copier.OpsParentsFirst | bin/index.js:163-172 | every call stays inside the project folder, and its parent is the project folder or a directory made by an earlier call |
| Copier.MirrorKeys | bin/index.js:163-166 | every path the copy creates lies inside the project folder, below a name the copier creates there |
| Copier.CopyBuildsMirror | bin/index.js:147-175 | when nothing is in the way and there is no ignore-file clash, the copy completes and adds exactly the mirror of the template to the filesystem |
| Copier.MirrorHasDirs | bin/index.js:165-172 | in a clash-free template, every template directory `q` is a directory at project path + `q` in the mirror |
| Copier.MirrorHasFiles | bin/index.js:156-164 | in a clash-free template, every template file `p` is, in the mirror, a file at its renamed destination holding its contents rendered for its relative directory |
| Copier.MirrorOnlyTemplate | bin/index.js:147-175 | every entry of the mirror is one of those two: a template directory at the same relative path, or a template file at its destination with its rendered contents |
| Copier.IgnoreClashOverwrites | bin/index.js:161-164 | in listing order (`.gitignore` before `gitignore`), a `.gitignore` file is overwritten by the renamed `gitignore`, whose rendered text alone survives |
| Copier.IgnoreClashStops | bin/index.js:161-166 | in listing order, a `.gitignore` directory is copied in full, then writing the renamed `gitignore` onto it throws |
| Process.InstallerChoice | bin/index.js:122-127 | the installer is yarn when `which yarn` succeeds and npm with its fixed arguments otherwise; "no installer" never happens |
| Process.ChoiceDiffersOnlyWithoutManagers | bin/index.js:124 | the code as written differs from calling `useNpm()` exactly when neither yarn nor npm is found |
| Process.GitStopsAtFirstFailure | bin/index.js:56-65 | git runs init, add and commit in order, all in one directory, and stops right after the first failure |
| Scaffold.PostProcessOutcome | bin/index.js:109-145 | without `package.json` nothing changes and the result is success; with it, the program moves into the target and runs `which yarn` then the installer there, leaves the files alone, and fails exactly when the install fails |
| Scaffold.ExistingFolderStops | bin/index.js:196-198 | an existing target folder ends the run with nothing changed |
| Scaffold.EmptyTemplateFlagUsesAll | bin/index.js:178-182 | an empty `--template` picks the listing of `templates/` itself (key `""`), so a run with a fresh target gets past the template check |
| Scaffold.EmptyTemplateCopiesEveryTemplate | bin/index.js:19-182 | with that listing, the copy creates one directory in the project for every template |
| Scaffold.EmptyNameFlagStops | bin/index.js:178-198 | an empty `--name` makes the target the current directory, so the run stops at the folder check |
| Scaffold.SpawnsOnlyAppend | bin/index.js:196-206 | processes are only appended to the ones started before; a run that stops before post-processing starts none |
| Scaffold.GitOnlyAfterPostProcess | bin/index.js:202-206 | `git init` is started if and only if the run completes |
| Scaffold.CompletedMeansInstalled | bin/index.js:202-206 | a completed run with a `package.json` template had a successful install |
| Scaffold.GitDirectory | bin/index.js:110-117 | git runs in the new project when the template has `package.json`, and otherwise in the directory the run started in |
| Scaffold.ProjectNamedByFlag | bin/index.js:178-200 | any run past the folder check leaves the folder CURR_DIR joined with the flag name, or with the prompted name when no flag was given |
| Scaffold.FreshProjectMirrorsTemplate | bin/index.js:177-209 | a fresh target and a clash-free template give exactly the old files, plus the project folder, plus the template's mirror, and the run ends by installing or completing |
| Scaffold.Scaffolder.constructor | bin/index.js:18 | the state starts in CURR_DIR, with the given files and no processes |
| Scaffold.Scaffolder.MakeDirectory | bin/index.js:166 | changes the files as `Fs.AfterMkDir` says, and reports whether it threw |
| Scaffold.Scaffolder.WriteFile | bin/index.js:164 | changes the files as `Fs.AfterWrite` says, and reports whether it threw |
| Scaffold.Scaffolder.RunCommand | bin/index.js:41-54 | starts the command in the current directory and succeeds exactly on exit code 0 |
| Scaffold.Scaffolder.UseYarn | bin/index.js:99-102 | starts `which yarn` and reports whether it exited with 0 |
| Scaffold.Scaffolder.CreateGitRepo | bin/index.js:56-65 | starts exactly the git commands of `Process.GitSpawns` in the current directory |
| Scaffold.Scaffolder.CreateProject | bin/index.js:83-93 | returns false and changes nothing when the path exists; otherwise creates exactly that directory and returns true |
| Scaffold.Scaffolder.CreateDirectoryContents | bin/index.js:147-175 | leaves the files and the success flag exactly as running `Copier.Ops` in order, stopping at the first throw |
| Scaffold.Scaffolder.PostProcessNode | bin/index.js:116-145 | its state and result are those of `Scaffold.PostProcessNodeSpec` |
| Scaffold.Scaffolder.PostProcess | bin/index.js:109-114 | its state and result are those of `Scaffold.PostProcessSpec` |
| Scaffold.Scaffolder.Scaffold | bin/index.js:177-209 | its state and outcome are those of `Scaffold.ScaffoldSpec`, about which the lemmas above are proved |

## Code versus design

Where the code and its evident intent part ways, the model follows the
code:

- Line 124 tests `useNpm`, the function, rather than calling it. A
  function value is always truthy, so npm is chosen whenever `which yarn`
  fails, `which npm` is never run, and the "No yarn or npm found" branch
  (lines 140-142) cannot be reached. `Process.SelectInstaller` is written
  that way. `Process.CalledNpmCheck` is the version that calls `useNpm()`,
  kept only for comparison, and `Process.ChoiceDiffersOnlyWithoutManagers`
  states where the two differ.
- `process.chdir` happens only in `postProcessNode` (line 117). For a
  template without `package.json`, the git commands run in the directory
  the program was started in, not in the new project. See
  `Scaffold.GitDirectory`.
- The recursive call passes `join(projectName, file)` as the new
  `projectName` (line 171), and that same variable goes to `render`
  (line 159). So a nested file is rendered with its relative directory,
  such as `app/src`, not with the project name. The model keeps this
  (`Copier.ExpectedWrite`).
- The validator's message speaks of "hashes", but the pattern accepts
  hyphens and no `#`. The message is kept verbatim.
- The validator runs only on a prompted name. A `--name` flag is never
  validated. An empty `--name` lets the question be asked, but its empty
  value then overrides the answer (see `Scaffold.EmptyNameFlagStops`).
- An empty `--template` works the same way. The question is asked (line
  26), but the empty flag overrides the choice (line 178). Line 182 then
  joins `templates/` with `""`, which gives `templates/` itself. So every
  template is copied into the project, each as its own directory. The
  post-processing decision looks for `templates/package.json`. See
  `Scaffold.EmptyTemplateFlagUsesAll` and
  `Scaffold.EmptyTemplateCopiesEveryTemplate`.

## Left out

- Prompting (inquirer) and flag parsing (yargs): the answers and flags
  are inputs. The model constrains the answers less than inquirer does.
  It requires only that a prompted name passed `validate`. It does not
  require a prompted template to be one of `CHOICES`. Flags are strings only. Numeric or
  boolean argv values and the `_`/`$0` keys are not modelled.
- Console output, `chalk`, `boxen` and `showMessage` (lines 67-81):
  these only print.
- `useNpm` (lines 104-107) is never called (see above), so it has no
  member.
- `render` (`./utils/template`) is not part of this model; it is an
  uninterpreted input.
- Child processes are reduced to their exit status (`Env.status`). What
  yarn, npm and git do to the files is not modelled. The same command
  line always gets the same status.
- A command missing from PATH is not modelled. There `spawn` in
  `runCommand` (line 43) emits an `'error'` event that has no listener,
  so the program dies with an uncaught exception instead of settling the
  promise. This is the no-yarn, no-npm case of line 124. The model
  instead lets `Env.status(NpmInstall)` be any status.
- The real filesystem:
  - paths are component sequences, and `path.join` normalisation of names
    containing `/`, `.` or `..` is not modelled. Only the unvalidated
    `--name` and `--template` flags can supply such a name (lines 182
    and 183). The model treats every name as one path component. The
    one exception is the empty `--template`, whose effect is modelled
    by the key `""` of `Env.templates`;
  - symbolic links and permissions are not modelled;
  - file contents are the decoded UTF-8 text.
- Listing order: a template directory's entries are taken in the order
  `readdirSync` returns them, whatever that order is. Only the two
  ignore-file clash lemmas fix an order: byte order, which puts
  `.gitignore` before `gitignore`. libuv sorts the names it scans, but
  Node does not document the order.
- Template reading: the tree is read-only and lies outside the
  destination. A template that cannot be read at all is the
  `TemplateUnreadable` outcome. Errors from `statSync` or `readFileSync`
  on single entries are not modelled.
- Scaffold.Scaffolder.CreateProject: it requires a path in CURR_DIR or
  CURR_DIR itself. Under the one-component reading of names, these are
  the only paths line 183 produces, and there `mkdirSync` cannot throw
  on a new path. In the source, `--name a/b` reaches a grandchild of
  CURR_DIR, and `--name ..` reaches its parent. In the first case the
  ENOENT throw of `mkdirSync` at line 91, when `a` is missing, is not
  modelled.
- A failing `process.chdir` is not modelled: the target was just created.
- Asynchrony: the awaits run in sequence, and no other work interleaves
  with them. The program's exit code is not modelled.
