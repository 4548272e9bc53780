/**
 * Folder and file downloads. A folder download walks the folder with
 * filepath.Walk and writes one stored zip entry per file it reaches; the
 * entry name is the file's path with its leading pieces cut off. A file
 * download serves the file as an attachment named after the URL's last element.
 */
module DownloadHandlers {
  import opened GoPath
  import opened FileSystem
  import opened Archive
  import opened Http

  /** The header key the newer handlers set (the older server writes "Content-Disposition:"). */
  const DispositionKey := "Content-Disposition"

  /** path.Join(strings.Split(filePath, "/")[drop:]...): the entry name of a walked file. */
  function ZipName(filePath: string, drop: nat): string
    requires drop <= |Split(filePath)|
  {
    Join(Split(filePath)[drop..])
  }

  /** Every walked path has at least `drop` pieces, so the slice in ZipName never panics. */
  predicate SlicesInRange(visits: seq<Visit>, drop: nat)
  {
    visits == [] ||
    (SlicesInRange(visits[..|visits| - 1], drop) && drop <= |Split(visits[|visits| - 1].path)|)
  }

  /** The entries the walk callback creates, in walk order: none for a directory, one stored entry for anything else. */
  function ZipEntries(visits: seq<Visit>, drop: nat): seq<ZipEntry>
    requires SlicesInRange(visits, drop)
  {
    if visits == [] then []
    else
      var v := visits[|visits| - 1];
      ZipEntries(visits[..|visits| - 1], drop) + (if v.isDir then [] else [ZipEntry(ZipName(v.path, drop), Store)])
  }

  /**
   * The walk callback over every path filepath.Walk reaches: a new zip writer
   * gets a stored entry for each non-directory, and is closed afterwards.
   * The callback always returns nil, so no file stops the walk.
   */
  method ZipWalk(visits: seq<Visit>, drop: nat) returns (zw: ZipWriter)
    requires SlicesInRange(visits, drop)
    ensures zw.closed
    ensures zw.entries == ZipEntries(visits, drop)
  {
    zw := new ZipWriter();
    var i := 0;
    while i < |visits|
      invariant 0 <= i <= |visits|
      invariant SlicesInRange(visits[..i], drop)
      invariant !zw.closed
      invariant zw.entries == ZipEntries(visits[..i], drop)
    {
      var v := visits[i];
      SliceAt(visits, drop, i);
      if !v.isDir {
        var zipPath := Join(Split(v.path)[drop..]);
        var _ := zw.CreateHeader(zipPath, Store);
      }
      assert visits[..i + 1][..i] == visits[..i];
      i := i + 1;
    }
    assert visits[..|visits|] == visits;
    zw.Close();
  }

  /** The i-th walked path can be cut, and so can every path up to it. */
  lemma {:induction false} SliceAt(visits: seq<Visit>, drop: nat, i: nat)
    requires SlicesInRange(visits, drop) && i < |visits|
    ensures drop <= |Split(visits[i].path)|
    ensures SlicesInRange(visits[..i + 1], drop)
  {
    var init := visits[..|visits| - 1];
    if i == |visits| - 1 {
      assert visits[..i + 1] == visits;
    } else {
      SliceAt(init, drop, i);
      assert init[i] == visits[i];
      assert init[..i + 1] == visits[..i + 1];
    }
  }

  /**
   * The entries downloadFolder writes for the folder at absPath (a path.Join
   * result) whose walk is t: every piece before the folder's own is cut.
   */
  function FolderZip(absPath: string, t: Tree): seq<ZipEntry>
    requires absPath == "" || Clean(absPath) == absPath
  {
    WalkInRange(absPath, t, 0, |Split(absPath)| - 1);
    ZipEntries(WalkFrom(absPath, t), |Split(absPath)| - 1)
  }

  /** The answer to a folder download: the attachment header, then the closed archive. */
  function FolderResponse<L>(dispositionKey: string, attachment: string, entries: seq<ZipEntry>): Response<L>
  {
    Response(StatusOK, map[dispositionKey := "attachment; filename=\"" + attachment + ".zip\""], Archive(entries, true))
  }

  /**
   * downloadFolder: the archive is named after the folder's last element and
   * each entry keeps the folder's own name in front of the file's relative path
   * (one piece fewer is dropped than the folder path has).
   */
  method DownloadFolder<L>(env: Env, absPath: string) returns (resp: Response<L>)
    requires absPath == "" || Clean(absPath) == absPath
    ensures resp == FolderResponse(DispositionKey, Base(absPath), FolderZip(absPath, env.tree(absPath)))
  {
    var t := env.tree(absPath);
    WalkInRange(absPath, t, 0, |Split(absPath)| - 1);
    var visits := WalkFrom(absPath, t);
    var zw := ZipWalk(visits, |Split(absPath)| - 1);
    resp := FolderResponse(DispositionKey, Base(absPath), zw.entries);
  }

  /**
   * The answer to a file download: "Unable to get file" (with the default
   * status) when the file cannot be opened, otherwise the file's content as an
   * attachment named path.Base(urlPath), dated by its modification time or,
   * when os.Stat fails, by the zero time.
   */
  function FileResponse<L>(env: Env, dispositionKey: string, urlPath: string, absPath: string): Response<L>
  {
    if !env.open(absPath) then
      Response(StatusOK, map[], Text("Unable to get file"))
    else
      var name := Base(urlPath);
      var modTime := match env.stat(absPath) case None => ZeroTime case Some(info) => ModifiedAt(info.modTime);
      Response(StatusOK, map[dispositionKey := "attachment; filename=\"" + name + "\""], Content(name, modTime))
  }

  /**
   * The steps of downloadFile: open the file, give up if that fails, read its
   * modification time, set the attachment header, serve it and close it.
   * The handle it opened is closed by the time it returns.
   */
  method ServeFile<L>(env: Env, dispositionKey: string, urlPath: string, absPath: string)
    returns (resp: Response<L>, file: FileHandle?)
    ensures resp == FileResponse(env, dispositionKey, urlPath, absPath)
    ensures file == null <==> !env.open(absPath)
    ensures file != null ==> file.path == absPath && file.closed
  {
    if !env.open(absPath) {
      return Response(StatusOK, map[], Text("Unable to get file")), null;
    }
    file := new FileHandle.Open(absPath);
    var ftime := ZeroTime;
    var fileStat := env.stat(absPath);
    if fileStat.Some? {
      ftime := ModifiedAt(fileStat.value.modTime);
    }
    var header := map[dispositionKey := "attachment; filename=\"" + Base(urlPath) + "\""];
    resp := Response(StatusOK, header, Content(Base(urlPath), ftime));
    file.Close();
  }

  /** downloadFile, with the header key this file's handler writes. */
  method DownloadFile<L>(env: Env, urlPath: string, absPath: string) returns (resp: Response<L>, file: FileHandle?)
    ensures resp == FileResponse(env, DispositionKey, urlPath, absPath)
    ensures file == null <==> !env.open(absPath)
    ensures file != null ==> file.path == absPath && file.closed
  {
    resp, file := ServeFile(env, DispositionKey, urlPath, absPath);
  }

  // ---------------------------------------------------------------------------
  // Which names the entries get

  /** The element a folder contributes in front of its files' names: its last piece, unless that is "" or ".". */
  function FolderPrefix(absPath: string): seq<string>
  {
    var segs := Split(absPath);
    var last := segs[|segs| - 1];
    if last == "" || last == "." then [] else [last]
  }

  /** One stored entry per relative file path, named `prefix` followed by that path. */
  function Named(prefix: seq<string>, files: seq<seq<string>>): seq<ZipEntry>
  {
    if files == [] then []
    else Named(prefix, files[..|files| - 1]) + [ZipEntry(JoinSlash(prefix + files[|files| - 1]), Store)]
  }

  /** A path ending in a slash has an empty last piece. */
  lemma SplitTrailingSlash(s: string)
    requires s != [] && s[|s| - 1] == '/'
    ensures Split(s)[|Split(s)| - 1] == ""
  {
    assert s == s[..|s| - 1] + "/" + "";
    SplitConcat(s[..|s| - 1], "");
  }

  /** When a folder contributes a prefix, it is the folder's path.Base, the name the archive gets. */
  lemma FolderPrefixIsBase(absPath: string)
    requires FolderPrefix(absPath) != []
    ensures FolderPrefix(absPath) == [Base(absPath)]
  {
    if absPath != [] && absPath[|absPath| - 1] == '/' {
      SplitTrailingSlash(absPath);
    }
  }

  /** Entry by entry: the i-th relative path gives the i-th entry, stored, named by the prefix and that path. */
  lemma {:induction false} NamedEntries(prefix: seq<string>, files: seq<seq<string>>)
    ensures |Named(prefix, files)| == |files|
    ensures forall i :: 0 <= i < |files| ==> Named(prefix, files)[i] == ZipEntry(JoinSlash(prefix + files[i]), Store)
  {
    if files != [] {
      NamedEntries(prefix, files[..|files| - 1]);
    }
  }

  /** Naming distributes over concatenation of the relative paths. */
  lemma {:induction false} NamedConcat(prefix: seq<string>, a: seq<seq<string>>, b: seq<seq<string>>)
    ensures Named(prefix, a + b) == Named(prefix, a) + Named(prefix, b)
    decreases |b|
  {
    if b != [] {
      assert (a + b)[..|a + b| - 1] == a + b[..|b| - 1];
      NamedConcat(prefix, a, b[..|b| - 1]);
    } else {
      assert a + b == a;
    }
  }

  /** The entries of two runs of visits, one after the other, are the entries of each run in turn. */
  lemma {:induction false} ZipEntriesConcat(a: seq<Visit>, b: seq<Visit>, drop: nat)
    requires SlicesInRange(a, drop) && SlicesInRange(b, drop)
    ensures SlicesInRange(a + b, drop)
    ensures ZipEntries(a + b, drop) == ZipEntries(a, drop) + ZipEntries(b, drop)
    decreases |b|
  {
    if b != [] {
      var front, last := b[..|b| - 1], b[|b| - 1];
      assert (a + b)[..|a + b| - 1] == a + front;
      assert (a + b)[|a + b| - 1] == last;
      ZipEntriesConcat(a, front, drop);
      var tail := if last.isDir then [] else [ZipEntry(ZipName(last.path, drop), Store)];
      assert ZipEntries(b, drop) == ZipEntries(front, drop) + tail;
      assert ZipEntries(a + b, drop) == ZipEntries(a + front, drop) + tail;
    } else {
      assert a + b == a;
    }
  }

  /** How many pieces a rendered path splits into. */
  lemma SplitRenderLength(rooted: bool, st: seq<string>)
    requires Canonical(rooted, st)
    ensures |Split(Render(rooted, st))| == (if rooted then 1 else 0) + (if st == [] then 1 else |st|)
  {
    SplitRender(rooted, st);
  }

  lemma FolderPrefixRender(rooted: bool, st: seq<string>)
    requires Canonical(rooted, st)
    ensures FolderPrefix(Render(rooted, st)) == if st == [] then [] else [st[|st| - 1]]
  {
    SplitRender(rooted, st);
    var segs := Split(Render(rooted, st));
    if st != [] {
      var last := st[|st| - 1];
      assert last == ".." || IsName(last);
      if rooted {
        assert segs == [""] + st;
      } else {
        assert segs == st;
      }
      assert segs[|segs| - 1] == last;
    }
  }

  lemma CanonicalNames(rooted: bool, st: seq<string>, rel: seq<string>)
    requires Canonical(rooted, st) && AllNames(rel)
    ensures Canonical(rooted, st + rel)
  {
  }

  /** The pieces of st + rel left after cutting all of st's pieces but k of its prefix. */
  lemma CutPieces(rooted: bool, st: seq<string>, rel: seq<string>, k: nat)
    requires Canonical(rooted, st) && AllNames(rel) && rel != []
    requires k <= |FolderPrefix(Render(rooted, st))|
    ensures |Split(Render(rooted, st))| - 1 + k <= |Split(Render(rooted, st + rel))|
    ensures Split(Render(rooted, st + rel))[|Split(Render(rooted, st))| - 1 + k..] ==
      FolderPrefix(Render(rooted, st))[k..] + rel
  {
    SplitBelow(rooted, st, rel);
    SplitRenderLength(rooted, st);
    FolderPrefixRender(rooted, st);
    var lead: seq<string> := if rooted then [""] else [];
    var n := |Split(Render(rooted, st))|;
    var pre := FolderPrefix(Render(rooted, st));
    assert n == |lead| + (if st == [] then 1 else |st|);
    assert Split(Render(rooted, st + rel)) == lead + st + rel;
    CutAt(lead, st, rel, k, n, pre);
  }

  /** The sequence arithmetic of CutPieces, over the pieces `lead + st + rel` of the path below. */
  lemma CutAt(lead: seq<string>, st: seq<string>, rel: seq<string>, k: nat, n: nat, pre: seq<string>)
    requires |lead| <= 1 && rel != []
    requires n == |lead| + (if st == [] then 1 else |st|)
    requires pre == (if st == [] then [] else [st[|st| - 1]]) && k <= |pre|
    ensures n - 1 + k <= |lead + st + rel|
    ensures (lead + st + rel)[n - 1 + k..] == pre[k..] + rel
  {
    var segs := lead + st + rel;
    if st == [] {
      assert segs == lead + rel;
    } else {
      assert segs == (lead + st) + rel;
      CutLast(lead + st, rel, k);
    }
  }

  /** The pieces of a path below a folder: the folder's elements, then the relative ones. */
  lemma SplitBelow(rooted: bool, st: seq<string>, rel: seq<string>)
    requires Canonical(rooted, st) && AllNames(rel) && rel != []
    ensures Split(Render(rooted, st + rel)) == (if rooted then [""] else []) + st + rel
  {
    CanonicalNames(rooted, st, rel);
    SplitRender(rooted, st + rel);
  }

  /** Cutting all but the last piece of xs, and k more, from xs + rel. */
  lemma CutLast(xs: seq<string>, rel: seq<string>, k: nat)
    requires xs != [] && k <= 1
    ensures (xs + rel)[|xs| - 1 + k..] == ([xs[|xs| - 1]] + rel)[k..]
  {
    assert (xs + rel)[|xs| - 1..] == [xs[|xs| - 1]] + rel;
  }

  /** A name of a file below a folder: the folder's prefix (a name, or "..") and then proper names. */
  lemma PrefixedCanonical(rooted: bool, st: seq<string>, rel: seq<string>, k: nat)
    requires Canonical(rooted, st) && AllNames(rel)
    requires k <= |FolderPrefix(Render(rooted, st))|
    ensures Canonical(false, FolderPrefix(Render(rooted, st))[k..] + rel)
  {
    FolderPrefixRender(rooted, st);
    var whole := FolderPrefix(Render(rooted, st));
    if st != [] {
      assert st[|st| - 1] == ".." || IsName(st[|st| - 1]);
    }
    PieceThenNames(whole[k..], rel);
  }

  /** At most one leading name or "..", then proper names, is a canonical relative path. */
  lemma PieceThenNames(pre: seq<string>, rel: seq<string>)
    requires |pre| <= 1 && (pre != [] ==> pre[0] == ".." || IsName(pre[0])) && AllNames(rel)
    ensures Canonical(false, pre + rel)
  {
    var xs := pre + rel;
    assert forall j :: |pre| <= j < |xs| ==> xs[j] == rel[j - |pre|];
  }

  /**
   * The entry name of a file at `rel` below the folder st: cutting the folder's
   * pieces less k leaves the folder's prefix from k on, then rel.
   */
  lemma FileEntryName(rooted: bool, st: seq<string>, rel: seq<string>, k: nat)
    requires Canonical(rooted, st) && AllNames(rel) && rel != []
    requires k <= |FolderPrefix(Render(rooted, st))|
    ensures |Split(Render(rooted, st))| - 1 + k <= |Split(Render(rooted, st + rel))|
    ensures ZipName(Render(rooted, st + rel), |Split(Render(rooted, st))| - 1 + k) ==
      JoinSlash(FolderPrefix(Render(rooted, st))[k..] + rel)
  {
    CutPieces(rooted, st, rel, k);
    PrefixedCanonical(rooted, st, rel, k);
    JoinCanonical(FolderPrefix(Render(rooted, st))[k..] + rel);
  }

  /**
   * The walk below the folder st, started at st + rel: every path it reaches is
   * long enough to cut, and the entries are those of the files below, named
   * as FileEntryName says. `path` is where the walk starts, `drop` the number
   * of pieces cut and `pre` what is left of the folder's prefix.
   */
  lemma {:induction false} WalkEntries(rooted: bool, st: seq<string>, rel: seq<string>, t: Tree, k: nat,
                                       path: string, drop: nat, pre: seq<string>)
    requires Canonical(rooted, st) && AllNames(rel) && (t.Dir? || rel != [])
    requires k <= |FolderPrefix(Render(rooted, st))|
    requires path == Render(rooted, st + rel)
    requires drop == |Split(Render(rooted, st))| - 1 + k && pre == FolderPrefix(Render(rooted, st))[k..]
    ensures SlicesInRange(WalkFrom(path, t), drop)
    ensures ZipEntries(WalkFrom(path, t), drop) == Named(pre, Files(rel, t))
    decreases t
  {
    CanonicalNames(rooted, st, rel);
    SplitRenderLength(rooted, st);
    SplitRenderLength(rooted, st + rel);
    FolderPrefixRender(rooted, st);
    assert drop <= |Split(path)|;
    match t
    case File(_) =>
      FileEntryName(rooted, st, rel, k);
      assert WalkFrom(path, t)[..0] == [];
    case Dir(_, listable, cs) =>
      var head := [Visit(path, true)];
      assert ZipEntries(head, drop) == [] by {
        assert head[..0] == [];
      }
      if listable {
        WalkChildrenEntries(rooted, st, rel, cs, k, path, drop, pre);
        ZipEntriesConcat(head, WalkChildren(path, cs), drop);
      } else {
        assert WalkFrom(path, t) == head;
      }
  }

  lemma {:induction false} WalkChildrenEntries(rooted: bool, st: seq<string>, rel: seq<string>, cs: seq<Tree>, k: nat,
                                               path: string, drop: nat, pre: seq<string>)
    requires Canonical(rooted, st) && AllNames(rel)
    requires k <= |FolderPrefix(Render(rooted, st))|
    requires path == Render(rooted, st + rel)
    requires drop == |Split(Render(rooted, st))| - 1 + k && pre == FolderPrefix(Render(rooted, st))[k..]
    ensures SlicesInRange(WalkChildren(path, cs), drop)
    ensures ZipEntries(WalkChildren(path, cs), drop) == Named(pre, FilesIn(rel, cs))
    decreases cs
  {
    if cs != [] {
      var c := cs[0];
      var below := rel + [c.name];
      CanonicalNames(rooted, st, rel);
      ChildPath(rooted, st + rel, c.name);
      assert st + rel + [c.name] == st + below;
      WalkEntries(rooted, st, below, c, k, Join([path, c.name]), drop, pre);
      WalkChildrenEntries(rooted, st, rel, cs[1..], k, path, drop, pre);
      ZipEntriesConcat(WalkFrom(Join([path, c.name]), c), WalkChildren(path, cs[1..]), drop);
      NamedConcat(pre, Files(below, c), FilesIn(rel, cs[1..]));
    }
  }

  /** Walking from "" reaches the same children as walking from ".". */
  lemma {:induction false} WalkChildrenFromEmpty(cs: seq<Tree>)
    ensures WalkChildren("", cs) == WalkChildren(".", cs)
    decreases cs
  {
    if cs != [] {
      var n := cs[0].name;
      ChildPath(false, [], n);
      NonEmptyAllNonEmpty([n]);
      assert NonEmpty(["", n]) == [n] by {
        assert ["", n][1..] == [n];
      }
      CleanRender(false, [n]);
      WalkChildrenFromEmpty(cs[1..]);
    }
  }

  /**
   * The naming of a folder download, for any folder path a handler derives
   * (a path.Join result: clean, or "" when everything joined was empty):
   * walking a directory and cutting all but k of the folder's pieces (`drop`
   * pieces) gives one stored entry per file below it, in walk order, named by
   * the folder prefix from k on (`pre`) and the file's path relative to the
   * folder. Directories, the folder itself included, give no entry.
   */
  lemma FolderEntries(absPath: string, t: Tree, k: nat, drop: nat, pre: seq<string>)
    requires absPath == "" || Clean(absPath) == absPath
    requires t.Dir? && k <= |FolderPrefix(absPath)|
    requires drop == |Split(absPath)| - 1 + k && pre == FolderPrefix(absPath)[k..]
    ensures SlicesInRange(WalkFrom(absPath, t), drop)
    ensures ZipEntries(WalkFrom(absPath, t), drop) == Named(pre, Files([], t))
  {
    if absPath == "" {
      EmptyFolderEntries(t);
    } else {
      CleanFolderEntries(absPath, t, k, drop, pre);
    }
  }

  lemma CleanFolderEntries(absPath: string, t: Tree, k: nat, drop: nat, pre: seq<string>)
    requires Clean(absPath) == absPath
    requires t.Dir? && k <= |FolderPrefix(absPath)|
    requires drop == |Split(absPath)| - 1 + k && pre == FolderPrefix(absPath)[k..]
    ensures SlicesInRange(WalkFrom(absPath, t), drop)
    ensures ZipEntries(WalkFrom(absPath, t), drop) == Named(pre, Files([], t))
  {
    var rooted := Rooted(absPath);
    var st := Resolve(rooted, [], Split(absPath));
    assert Render(rooted, st + []) == absPath by {
      assert st + [] == st;
    }
    WalkEntries(rooted, st, [], t, k, absPath, drop, pre);
  }

  /** Walking from "" names the entries as walking from "." does: by their relative paths. */
  lemma EmptyFolderEntries(t: Tree)
    requires t.Dir?
    ensures |Split("")| == 1 && FolderPrefix("") == []
    ensures SlicesInRange(WalkFrom("", t), 0)
    ensures ZipEntries(WalkFrom("", t), 0) == Named([], Files([], t))
  {
    DotEntries(t);
    WalkChildrenFromEmpty(t.children);
    var head := [Visit("", true)];
    var dotHead := [Visit(".", true)];
    assert ZipEntries(head, 0) == [] by {
      assert head[..0] == [];
    }
    assert ZipEntries(dotHead, 0) == [] by {
      assert dotHead[..0] == [];
    }
    if t.listable {
      var rest := WalkChildren(".", t.children);
      assert WalkFrom(".", t) == dotHead + rest;
      SlicesFromZero(rest);
      SlicesFromZero(head);
      ZipEntriesConcat(head, rest, 0);
      ZipEntriesConcat(dotHead, rest, 0);
    } else {
      assert WalkFrom("", t) == head;
    }
  }

  /** Cutting no pieces is always in range. */
  lemma {:induction false} SlicesFromZero(visits: seq<Visit>)
    ensures SlicesInRange(visits, 0)
  {
    if visits != [] {
      SlicesFromZero(visits[..|visits| - 1]);
    }
  }

  lemma DotEntries(t: Tree)
    requires t.Dir?
    ensures SlicesInRange(WalkFrom(".", t), 0)
    ensures ZipEntries(WalkFrom(".", t), 0) == Named([], Files([], t))
  {
    CleanRender(false, []);
    SplitName(".");
    CleanFolderEntries(".", t, 0, 0, []);
  }

  /** The cut never panics, whatever the walk finds below a derived folder path. */
  lemma WalkInRange(absPath: string, t: Tree, k: nat, drop: nat)
    requires absPath == "" || Clean(absPath) == absPath
    requires k <= |FolderPrefix(absPath)| && drop == |Split(absPath)| - 1 + k
    ensures SlicesInRange(WalkFrom(absPath, t), drop)
  {
    if t.Dir? {
      FolderEntries(absPath, t, k, drop, FolderPrefix(absPath)[k..]);
    }
  }

  /**
   * downloadFolder names every entry after the folder: the folder's base name,
   * a slash, and the file's path relative to the folder (only the relative
   * path when the folder is "/", "." or ""), and stores it uncompressed.
   */
  lemma DownloadFolderEntries(absPath: string, t: Tree)
    requires absPath == "" || Clean(absPath) == absPath
    requires t.Dir?
    ensures FolderZip(absPath, t) == Named(if FolderPrefix(absPath) == [] then [] else [Base(absPath)], Files([], t))
  {
    var prefix := FolderPrefix(absPath);
    var pre := if prefix == [] then [] else [Base(absPath)];
    if prefix != [] {
      FolderPrefixIsBase(absPath);
    }
    assert prefix[0..] == prefix;
    var drop := |Split(absPath)| - 1;
    FolderEntries(absPath, t, 0, drop, pre);
    assert FolderZip(absPath, t) == ZipEntries(WalkFrom(absPath, t), drop);
  }
}
