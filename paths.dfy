/**
 * Filesystem paths as sequences of components.  `path.join` on POSIX
 * separates components with "/" and skips empty segments; the model keeps
 * the components and renders the string form only where the program hands
 * a joined path to other code (the `projectName` given to `render`).
 */
module Paths {
  type Path = seq<string>

  /** `path.join(dir, name)` for a single name: an empty name adds nothing. */
  function Join(dir: Path, name: string): Path
  {
    if name == "" then dir else dir + [name]
  }

  function Parent(p: Path): Path
    requires |p| > 0
  {
    p[..|p| - 1]
  }

  function Last(p: Path): string
    requires |p| > 0
  {
    p[|p| - 1]
  }

  /** The string `path.join(c0, c1, ..., cn)` of non-empty components. */
  function PathString(p: Path): string
  {
    if |p| == 0 then ""
    else if |p| == 1 then p[0]
    else PathString(Parent(p)) + "/" + Last(p)
  }

  /** `prefix` is a proper ancestor of `p`. */
  predicate StrictlyUnder(p: Path, prefix: Path)
  {
    |prefix| < |p| && p[..|prefix|] == prefix
  }
}
