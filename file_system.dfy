/**
 * The operating system as the handlers see it. Every call the server makes
 * (os.Stat, unix.Access, ioutil.ReadDir, os.Open, filepath.Walk) becomes a
 * field of `Env` answering for the exact path string the handler passes, so
 * the model is a function of what the file system says, not of a real disk.
 */
module FileSystem {
  import opened Wrappers
  import opened GoPath

  /** What os.Stat reports: whether the path is a directory, and its modification time in Unix nanoseconds. */
  datatype FileInfo = FileInfo(isDir: bool, modTime: int)

  /** A name a directory listing returns: never empty, ".", ".." or containing a slash. */
  type Name = s: string | IsName(s) witness "f"

  /** One element of an ioutil.ReadDir result. */
  datatype DirEntry = DirEntry(name: Name, isDir: bool)

  /**
   * What filepath.Walk finds below a path: a file (anything that is not a
   * directory) or a directory whose children are listed in walk order, unless
   * it cannot be read (`listable` false), in which case Walk skips its contents.
   */
  datatype Tree = File(name: Name) | Dir(name: Name, listable: bool, children: seq<Tree>)

  datatype Env = Env(
    stat: string -> Option<FileInfo>,          // os.Stat; None is an error
    access: string -> bool,                    // unix.Access(path, unix.R_OK) == nil
    readDir: string -> Option<seq<DirEntry>>,  // ioutil.ReadDir; None is an error
    open: string -> bool,                      // os.Open succeeds
    tree: string -> Tree)                      // the tree filepath.Walk visits from the path

  /** One call of the filepath.Walk callback: the path it receives and whether that is a directory. */
  datatype Visit = Visit(path: string, isDir: bool)

  /**
   * The callbacks filepath.Walk makes, in order: the path itself, then, for a
   * readable directory, each child in turn at path.Join(path, child name).
   */
  function WalkFrom(path: string, t: Tree): seq<Visit>
    decreases t
  {
    match t
    case File(_) => [Visit(path, false)]
    case Dir(_, listable, cs) =>
      [Visit(path, true)] + (if listable then WalkChildren(path, cs) else [])
  }

  function WalkChildren(path: string, cs: seq<Tree>): seq<Visit>
    decreases cs
  {
    if cs == [] then []
    else WalkFrom(Join([path, cs[0].name]), cs[0]) + WalkChildren(path, cs[1..])
  }

  /** The element paths, relative to the walk root, of the files below `t`, in walk order. */
  function Files(rel: seq<string>, t: Tree): seq<seq<string>>
    decreases t
  {
    match t
    case File(_) => [rel]
    case Dir(_, listable, cs) => if listable then FilesIn(rel, cs) else []
  }

  function FilesIn(rel: seq<string>, cs: seq<Tree>): seq<seq<string>>
    decreases cs
  {
    if cs == [] then []
    else Files(rel + [cs[0].name], cs[0]) + FilesIn(rel, cs[1..])
  }

  /** Joining a name onto a clean path appends it as one more element. */
  lemma ChildPath(rooted: bool, st: seq<string>, name: Name)
    requires Canonical(rooted, st)
    ensures Canonical(rooted, st + [name])
    ensures Join([Render(rooted, st), name]) == Render(rooted, st + [name])
  {
    var dir := Render(rooted, st);
    RenderRooted(rooted, st);
    NonEmptyAllNonEmpty([dir, name]);
    assert JoinSlash([dir, name]) == dir + "/" + name;
    var p := dir + "/" + name;
    assert Rooted(p) == rooted by {
      assert p[0] == dir[0];
    }
    SplitConcat(dir, name);
    SplitName(name);
    ResolveRender(rooted, st);
    ResolveConcat(rooted, [], Split(dir), [name]);
    ResolveNames(rooted, st, [name]);
    assert NonEmpty([name]) == [name];
  }

  /** An open *os.File: the path it was opened at and whether Close has run. */
  class FileHandle {
    const path: string
    var closed: bool

    /** os.Open, once the environment has said that it succeeds. */
    constructor Open(path: string)
      ensures this.path == path && !closed
    {
      this.path := path;
      closed := false;
    }

    method Close()
      modifies this
      ensures closed
    {
      closed := true;
    }
  }
}
