/**
 * An extracted archive as an ordered directory tree, and the order in which
 * `os.walk(top)` (top-down, the default) visits its directories.
 */
module Archive {

  /** A directory: its name, the files it holds directly, and its subdirectories, in listing order. */
  datatype Dir = Dir(name: string, files: seq<string>, subdirs: seq<Dir>)

  /** One step of `os.walk`: the directory reached (as the names leading to it from the top) and its content. */
  datatype Visit = Visit(path: seq<string>, dir: Dir)

  /** The directories of `d` in the order `os.walk` yields them: `d` first, then each subdirectory's walk in turn. */
  function Walk(d: Dir, path: seq<string>): (w: seq<Visit>)
    ensures |w| >= 1 && w[0] == Visit(path, d)
    decreases d, 1
  {
    [Visit(path, d)] + WalkAll(d.subdirs, path)
  }

  function WalkAll(ds: seq<Dir>, path: seq<string>): seq<Visit>
    decreases ds, 0
  {
    if ds == [] then [] else Walk(ds[0], path + [ds[0].name]) + WalkAll(ds[1..], path)
  }

  /** The file names of a walk, directory by directory, as the nested `for` loops over `os.walk` meet them. */
  function FilesOf(visits: seq<Visit>): seq<string> {
    if visits == [] then [] else visits[0].dir.files + FilesOf(visits[1..])
  }
}
