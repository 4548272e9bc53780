/**
 * The older server (server.go): the same routes as the newer handlers, but
 * with an unsorted listing, a read-access check before every walk and
 * download, a zip archive always called "test.zip.zip", and zip entries named
 * relative to the folder without the folder's own name. Its header key is
 * written "Content-Disposition:", colon included.
 */
module LegacyServer {
  import opened Wrappers
  import opened GoPath
  import opened FileSystem
  import opened Archive
  import opened Http
  import opened DownloadHandlers

  /** The header key server.go sets, with the stray colon it is written with. */
  const LegacyDispositionKey := "Content-Disposition:"

  /** One row of the older listing template: no temporary link. */
  datatype Entry = Entry(name: Name, file: bool, downloadPath: string)

  datatype WalkData = WalkData(path: string, entries: seq<Entry>)

  function E404(): Response<WalkData>
  {
    Response(StatusNotFound, map[], Text("my404\n"))
  }

  function Home(urlPath: string): Response<WalkData>
  {
    if urlPath != "/" then E404() else Response(StatusOK, map[], Text("Home\n"))
  }

  /** The home page is served at "/" only; every other path gets "my404". */
  lemma HomeOnlyAtRoot(urlPath: string)
    ensures Home(urlPath).status == StatusOK <==> urlPath == "/"
    ensures urlPath != "/" ==> Home(urlPath) == E404()
  {
  }

  function DirNotFound(): Response<WalkData>
  {
    Response(StatusNotFound, map[], Text("Either the requested directory doesn't exist or access was denied"))
  }

  function ItemNotFound(): Response<WalkData>
  {
    Response(StatusNotFound, map[], Text("Either the requested item doesn't exist or access was denied"))
  }

  /** Walk goes ahead only for a readable path that os.Stat reports as a directory. */
  predicate CanWalk(env: Env, absPath: string)
  {
    env.access(absPath) && env.stat(absPath).Some? && env.stat(absPath).value.isDir
  }

  /** Download goes ahead for any readable path os.Stat finds. */
  predicate CanDownload(env: Env, absPath: string)
  {
    env.access(absPath) && env.stat(absPath).Some?
  }

  /** The row for one child of the folder at the requested path. */
  function MakeEntry(requested: string, f: DirEntry): Entry
  {
    Entry(f.name, !f.isDir, ChildLink("download", requested, f.name))
  }

  /** The rows, in ReadDir order. */
  function ListingOf(requested: string, files: seq<DirEntry>): seq<Entry>
  {
    seq(|files|, i requires 0 <= i < |files| => MakeEntry(requested, files[i]))
  }

  /** ioutil.ReadDir's result as the loop sees it: nothing when it fails, since its error is not looked at. */
  function ListedOrNone(listed: Option<seq<DirEntry>>): seq<DirEntry>
  {
    if listed.None? then [] else listed.value
  }

  /** The 200 page of a directory listing: the requested path with a trailing slash, and its rows. */
  function ListingPage(requested: string, rows: seq<Entry>): Response<WalkData>
  {
    Response(StatusOK, map["Content-Type" := "text/html; charset=utf-8"], Listing(WalkData(requested + "/", rows)))
  }

  /** The loop of Walk: one row per child, in ReadDir order. */
  method BuildEntries(requested: string, files: seq<DirEntry>) returns (entries: seq<Entry>)
    ensures |entries| == |files|
    ensures forall i :: 0 <= i < |files| ==> entries[i] == MakeEntry(requested, files[i])
  {
    entries := [];
    for i := 0 to |files|
      invariant |entries| == i
      invariant forall k :: 0 <= k < i ==> entries[k] == MakeEntry(requested, files[k])
    {
      entries := entries + [MakeEntry(requested, files[i])];
    }
  }

  /**
   * Walk: 404 unless the path is readable and a directory; otherwise the
   * listing of the requested path with a trailing slash, one row per child
   * in ReadDir order.
   */
  method Walk(env: Env, rootDir: string, urlPath: string) returns (resp: Response<WalkData>)
    requires '/' in urlPath
    ensures !CanWalk(env, AbsPath(rootDir, urlPath)) ==> resp == DirNotFound()
    ensures CanWalk(env, AbsPath(rootDir, urlPath)) ==>
      var requested := RequestedPath(urlPath);
      var files := ListedOrNone(env.readDir(AbsPath(rootDir, urlPath) + "/"));
      resp == ListingPage(requested, ListingOf(requested, files))
  {
    var requested := RequestedPath(urlPath);
    var absPath := AbsPath(rootDir, urlPath);
    var fileInfo := env.stat(absPath);
    if !env.access(absPath) || fileInfo.None? || !fileInfo.value.isDir {
      return DirNotFound();
    }
    var listed := env.readDir(absPath + "/");
    var files := ListedOrNone(listed);
    var entries := BuildEntries(requested, files);
    assert entries == ListingOf(requested, files);
    resp := ListingPage(requested, entries);
  }

  /**
   * The older listing of the folder st has one row per child, in ReadDir
   * order, each naming the child, saying whether it is a file and linking
   * to the download of exactly that child.
   */
  lemma ListingRows(st: seq<string>, files: seq<DirEntry>)
    requires AllNames(st)
    ensures |ListingOf(JoinSlash(st), files)| == |files|
    ensures forall i :: 0 <= i < |files| ==>
      var e := ListingOf(JoinSlash(st), files)[i];
      && e.name == files[i].name && e.file == !files[i].isDir
      && '/' in "/" + e.downloadPath
      && RequestedPath("/" + e.downloadPath) == JoinSlash(st + [files[i].name])
  {
    forall i | 0 <= i < |files|
      ensures '/' in "/" + ChildLink("download", JoinSlash(st), files[i].name)
      ensures RequestedPath("/" + ChildLink("download", JoinSlash(st), files[i].name)) == JoinSlash(st + [files[i].name])
    {
      ChildLinkRequestsChild("download", st, files[i].name);
    }
  }

  // ---------------------------------------------------------------------------
  // Folder downloads

  /**
   * How many pieces of a walked path the zip naming drops: every piece of
   * the folder's path, so that names are relative to the folder. For the
   * folders "/" and ".", whose last piece is not a name, that is one piece
   * fewer than server.go drops.
   */
  function LegacyDrop(absPath: string): nat
  {
    |Split(absPath)| - 1 + |FolderPrefix(absPath)|
  }

  /** The number of pieces server.go:148 drops, as written: len(strings.Split(absPath, "/")). */
  function WrittenDrop(absPath: string): nat
  {
    |Split(absPath)|
  }

  /** For every folder with a name of its own the written drop is the intended one. */
  lemma WrittenDropAgrees(absPath: string)
    requires FolderPrefix(absPath) != []
    ensures WrittenDrop(absPath) == LegacyDrop(absPath)
  {
  }

  /**
   * As written, downloading the folder "/" (or ".") holding one file names
   * that file's entry "": the only piece left after the folder's is dropped
   * too. The intended naming gives the file's own name.
   */
  lemma TopFolderLosesNames(rooted: bool, d: Name, n: Name)
    ensures var absPath := Render(rooted, []);
      var t := Dir(d, true, [File(n)]);
      && SlicesInRange(WalkFrom(absPath, t), WrittenDrop(absPath))
      && SlicesInRange(WalkFrom(absPath, t), LegacyDrop(absPath))
      && ZipEntries(WalkFrom(absPath, t), WrittenDrop(absPath)) == [ZipEntry("", Store)]
      && ZipEntries(WalkFrom(absPath, t), LegacyDrop(absPath)) == [ZipEntry(n, Store)]
  {
    var absPath := Render(rooted, []);
    var child := Render(rooted, [n]);
    TopFolderWalk(rooted, d, n);
    TopFolderNames(rooted, n);
    PairEntries(absPath, child, WrittenDrop(absPath));
    PairEntries(absPath, child, LegacyDrop(absPath));
  }

  /** The entry names of the file below "/" or ".": "" with the written drop, the file's name with the intended one. */
  lemma TopFolderNames(rooted: bool, n: Name)
    ensures WrittenDrop(Render(rooted, [])) <= |Split(Render(rooted, [n]))|
    ensures LegacyDrop(Render(rooted, [])) <= |Split(Render(rooted, [n]))|
    ensures ZipName(Render(rooted, [n]), WrittenDrop(Render(rooted, []))) == ""
    ensures ZipName(Render(rooted, [n]), LegacyDrop(Render(rooted, []))) == n
  {
    var folder := Render(rooted, []);
    var pieces := Split(Render(rooted, [n]));
    TopFolderPieces(rooted, n);
    var written := WrittenDrop(folder);
    var intended := LegacyDrop(folder);
    var none: seq<string> := [];
    var last := [n];
    assert pieces[written..] == none;
    assert pieces[intended..] == last;
    JoinNames(none);
    JoinNames(last);
    assert JoinSlash(last) == n;
  }

  /** Walking the folder "/" or "." holding one file visits the folder, then the file. */
  lemma TopFolderWalk(rooted: bool, d: Name, n: Name)
    ensures WalkFrom(Render(rooted, []), Dir(d, true, [File(n)])) ==
      [Visit(Render(rooted, []), true), Visit(Render(rooted, [n]), false)]
  {
    var none: seq<string> := [];
    assert Canonical(rooted, none);
    ChildPath(rooted, none, n);
    assert none + [n] == [n];
    var cs := [File(n)];
    assert cs[1..] == [];
    assert WalkChildren(Render(rooted, []), cs) == [Visit(Render(rooted, [n]), false)];
  }

  /** The file below "/" or "." has exactly one piece more than the folder's written drop leaves room for. */
  lemma TopFolderPieces(rooted: bool, n: Name)
    ensures var pieces := Split(Render(rooted, [n]));
      && |pieces| >= 1
      && WrittenDrop(Render(rooted, [])) == |pieces|
      && LegacyDrop(Render(rooted, [])) == |pieces| - 1
      && pieces[|pieces| - 1] == n
  {
    var none: seq<string> := [];
    var one := [n];
    assert Canonical(rooted, none);
    assert Canonical(rooted, one);
    SplitRenderLength(rooted, none);
    FolderPrefixRender(rooted, none);
    SplitRender(rooted, one);
  }

  /** A folder visit followed by one file visit gives one entry, for the file. */
  lemma PairEntries(folder: string, file: string, drop: nat)
    requires drop <= |Split(folder)| && drop <= |Split(file)|
    ensures SlicesInRange([Visit(folder, true), Visit(file, false)], drop)
    ensures ZipEntries([Visit(folder, true), Visit(file, false)], drop) == [ZipEntry(ZipName(file, drop), Store)]
  {
    var visits := [Visit(folder, true), Visit(file, false)];
    var head := visits[..1];
    assert head == [Visit(folder, true)];
    assert head[..0] == [];
    assert SlicesInRange(head, drop);
    assert ZipEntries(head, drop) == [];
  }

  /** Joining proper names puts slashes between them; joining nothing gives "". */
  lemma JoinNames(names: seq<string>)
    requires AllNames(names)
    ensures Join(names) == JoinSlash(names)
  {
    if names != [] {
      var none: seq<string> := [];
      CanonicalNames(false, none, names);
      assert none + names == names;
      JoinCanonical(names);
    }
  }

  /** Download's folder branch: one stored entry per file below the folder, named relative to it. */
  method DownloadFolder(env: Env, absPath: string) returns (resp: Response<WalkData>)
    requires absPath == "" || Clean(absPath) == absPath
    ensures resp == FolderResponse(LegacyDispositionKey, "test.zip", LegacyZip(absPath, env.tree(absPath)))
  {
    var t := env.tree(absPath);
    WalkInRange(absPath, t, |FolderPrefix(absPath)|, LegacyDrop(absPath));
    var visits := WalkFrom(absPath, t);
    var zw := ZipWalk(visits, LegacyDrop(absPath));
    resp := FolderResponse(LegacyDispositionKey, "test.zip", zw.entries);
  }

  /** The entries DownloadFolder writes for the folder at absPath whose walk is t, with the intended cut. */
  function LegacyZip(absPath: string, t: Tree): seq<ZipEntry>
    requires absPath == "" || Clean(absPath) == absPath
  {
    WalkInRange(absPath, t, |FolderPrefix(absPath)|, LegacyDrop(absPath));
    ZipEntries(WalkFrom(absPath, t), LegacyDrop(absPath))
  }

  /**
   * The entries of a folder download are the files below it, in walk order,
   * each stored under its path relative to the folder (Named with no prefix).
   */
  lemma FolderEntriesRelative(absPath: string, t: Tree)
    requires absPath == "" || Clean(absPath) == absPath
    requires t.Dir?
    ensures LegacyZip(absPath, t) == Named([], Files([], t))
  {
    var prefix := FolderPrefix(absPath);
    assert prefix[|prefix|..] == [];
    FolderEntries(absPath, t, |prefix|, LegacyDrop(absPath), []);
  }

  /** Download's file branch: the file served as an attachment under the URL's last element. */
  method DownloadFile(env: Env, urlPath: string, absPath: string) returns (resp: Response<WalkData>, file: FileHandle?)
    ensures resp == FileResponse(env, LegacyDispositionKey, urlPath, absPath)
    ensures file == null <==> !env.open(absPath)
    ensures file != null ==> file.path == absPath && file.closed
  {
    resp, file := ServeFile(env, LegacyDispositionKey, urlPath, absPath);
  }

  /** What Download answers. */
  function DownloadResult(env: Env, rootDir: string, urlPath: string): Response<WalkData>
    requires '/' in urlPath
  {
    var absPath := AbsPath(rootDir, urlPath);
    if !CanDownload(env, absPath) then ItemNotFound()
    else
      AbsPathClean(rootDir, urlPath);
      DownloadItem(env, urlPath, absPath)
  }

  /** What downloading a readable item that os.Stat found answers. */
  function DownloadItem(env: Env, urlPath: string, absPath: string): Response<WalkData>
    requires absPath == "" || Clean(absPath) == absPath
    requires env.stat(absPath).Some?
  {
    if env.stat(absPath).value.isDir then
      FolderResponse(LegacyDispositionKey, "test.zip", LegacyZip(absPath, env.tree(absPath)))
    else
      FileResponse(env, LegacyDispositionKey, urlPath, absPath)
  }

  /** The path on disk that a request names is "" or clean. */
  lemma AbsPathClean(rootDir: string, urlPath: string)
    requires '/' in urlPath
    ensures AbsPath(rootDir, urlPath) == "" || Clean(AbsPath(rootDir, urlPath)) == AbsPath(rootDir, urlPath)
  {
    JoinIsClean([rootDir, RequestedPath(urlPath)]);
  }

  /** Download: 404 unless readable and found; then a folder download for a directory and a file download otherwise. */
  method Download(env: Env, rootDir: string, urlPath: string) returns (resp: Response<WalkData>)
    requires '/' in urlPath
    ensures resp == DownloadResult(env, rootDir, urlPath)
  {
    var requested := RequestedPath(urlPath);
    var absPath := Join([rootDir, requested]);
    var fileInfo := env.stat(absPath);
    if !env.access(absPath) || fileInfo.None? {
      return ItemNotFound();
    }
    AbsPathClean(rootDir, urlPath);
    resp := DownloadAt(env, urlPath, absPath);
    assert resp == DownloadItem(env, urlPath, absPath);
  }

  /** The dispatch of Download once the checks have passed. */
  method DownloadAt(env: Env, urlPath: string, absPath: string) returns (resp: Response<WalkData>)
    requires absPath == "" || Clean(absPath) == absPath
    requires env.stat(absPath).Some?
    ensures env.stat(absPath).value.isDir ==>
      resp == FolderResponse(LegacyDispositionKey, "test.zip", LegacyZip(absPath, env.tree(absPath)))
    ensures !env.stat(absPath).value.isDir ==> resp == FileResponse(env, LegacyDispositionKey, urlPath, absPath)
  {
    var fileInfo := env.stat(absPath).value;
    if fileInfo.isDir {
      resp := DownloadFolder(env, absPath);
    } else {
      var file;
      resp, file := DownloadFile(env, urlPath, absPath);
    }
  }

  /** A download answers 404 exactly when the path is unreadable or os.Stat fails on it. */
  lemma DownloadNotFound(env: Env, rootDir: string, urlPath: string)
    requires '/' in urlPath
    ensures DownloadResult(env, rootDir, urlPath).status == StatusNotFound <==> !CanDownload(env, AbsPath(rootDir, urlPath))
  {
  }
}
