/**
 * The child processes the program starts (bin/index.js lines 41-65 and
 * 99-145) and the decisions taken on their exit statuses.  What a process
 * does is outside the model: its exit status is an input, a function from
 * the command line to the status.
 */
module Process {
  import opened Wrappers
  import opened Paths

  /** How a child ended: with an exit code, or killed by a signal (`code` is `null`). */
  datatype Exit = Exited(code: int) | Killed

  /** `child.status === 0` / `code !== 0`: only exit code 0 counts as success. */
  predicate Succeeded(e: Exit)
  {
    e == Exited(0)
  }

  datatype Command = Command(program: string, args: seq<string>)

  /** A child process started with `spawn` or `spawnSync`, and the working directory it inherited. */
  datatype Spawn = Spawn(command: Command, dir: Path)

  const WhichYarn := Command("which", ["yarn"])
  const WhichNpm := Command("which", ["npm"])
  const YarnInstall := Command("yarn", [])
  const NpmArgs := ["i", "--save", "--no-audit", "--save-exac", "--loglevel", "error"]
  const NpmInstall := Command("npm", NpmArgs)
  const GitInit := Command("git", ["init"])
  const GitAdd := Command("git", ["add", "."])
  const GitCommit := Command("git", ["commit", "-m", "\"Init project\""])

  /** The JavaScript values an `if` inspects in postProcessNode: a boolean, a string, or a function object. */
  datatype JsValue = JsBool(b: bool) | JsString(s: string) | JsFunction(name: string)

  /** JavaScript truthiness of those values: a function object is always truthy, a string when it is not empty. */
  predicate Truthy(v: JsValue)
  {
    match v
    case JsBool(b) => b
    case JsString(s) => s != ""
    case JsFunction(_) => true
  }

  /**
   * Lines 122-127: `if (useYarn()) ... else if (useNpm) ...`.  The second
   * condition is the function `useNpm` itself, not its result, so
   * `npmFound` (what calling it would report) plays no part.  `None` is
   * the "No yarn or npm found" outcome of lines 140-142.
   */
  function SelectInstaller(yarnFound: bool, npmFound: bool): Option<Command>
  {
    if yarnFound then Some(YarnInstall)
    else if Truthy(JsFunction("useNpm")) then Some(NpmInstall)
    else None
  }

  /**
   * Yarn with no arguments when `which yarn` succeeds, npm with its fixed
   * arguments otherwise, whether npm is installed or not: the "No yarn or
   * npm found" branch cannot be taken.
   */
  lemma InstallerChoice(yarnFound: bool, npmFound: bool)
    ensures SelectInstaller(yarnFound, npmFound) == Some(if yarnFound then YarnInstall else NpmInstall)
    ensures SelectInstaller(yarnFound, npmFound) != None
  {
  }

  /** The choice an `else if (useNpm())` would make, for comparison with the code as written. */
  function CalledNpmCheck(yarnFound: bool, npmFound: bool): Option<Command>
  {
    if yarnFound then Some(YarnInstall)
    else if npmFound then Some(NpmInstall)
    else None
  }

  /** The two differ exactly when neither yarn nor npm is found: the code as written still runs npm. */
  lemma ChoiceDiffersOnlyWithoutManagers(yarnFound: bool, npmFound: bool)
    ensures SelectInstaller(yarnFound, npmFound) != CalledNpmCheck(yarnFound, npmFound) <==> !yarnFound && !npmFound
  {
  }

  /**
   * `createGitRepo` (lines 56-65): `git init`, `git add .` and `git commit`
   * one after the other in `dir`, each only after the one before exited
   * with 0; a failure is caught and ends the sequence.
   */
  function GitSpawns(status: Command -> Exit, dir: Path): (r: seq<Spawn>)
  {
    [Spawn(GitInit, dir)]
    + if !Succeeded(status(GitInit)) then []
      else [Spawn(GitAdd, dir)] + if !Succeeded(status(GitAdd)) then [] else [Spawn(GitCommit, dir)]
  }

  /**
   * The git commands run form a prefix of init, add, commit that stops
   * right after the first failure, all in the same directory.
   */
  lemma GitStopsAtFirstFailure(status: Command -> Exit, dir: Path)
    ensures var r := GitSpawns(status, dir);
      && 1 <= |r| <= 3
      && (forall i :: 0 <= i < |r| ==> r[i] == Spawn([GitInit, GitAdd, GitCommit][i], dir))
      && (forall i :: 0 <= i < |r| - 1 ==> Succeeded(status(r[i].command)))
      && (|r| < 3 ==> !Succeeded(status(r[|r| - 1].command)))
  {
  }
}
