/**
 * Responses as the handlers write them, and the derivation every handler
 * applies to the URL path: drop the empty piece before the leading slash and
 * the route piece, path.Join the rest, and path.Join that onto the root.
 */
module Http {
  import opened GoPath
  import opened Archive

  const StatusOK := 200
  const StatusUnauthorized := 401
  const StatusNotFound := 404

  /** The modification time handed to http.ServeContent: time.Time{} or a file's mtime in Unix nanoseconds. */
  datatype ModTime = ZeroTime | ModifiedAt(unixNanos: int)

  /**
   * What a handler writes after the header: nothing, text, the fixed home
   * page of templates.go (not part of this model), a directory
   * listing for the template (of the handler's own listing type L), a file
   * served by http.ServeContent under a name, or a zip stream.
   */
  datatype Body<L> =
    | NoBody
    | Text(text: string)
    | HomePage
    | Listing(data: L)
    | Content(name: string, modTime: ModTime)
    | Archive(entries: seq<ZipEntry>, closed: bool)

  datatype Response<L> = Response(status: int, header: map<string, string>, body: Body<L>)

  /** The requested path: the URL path without its first two slash-separated pieces, joined and cleaned. */
  function RequestedPath(urlPath: string): string
    requires '/' in urlPath
  {
    Join(Split(urlPath)[2..])
  }

  /** The path on disk: the requested path joined onto the root directory. */
  function AbsPath(rootDir: string, urlPath: string): string
    requires '/' in urlPath
  {
    Join([rootDir, RequestedPath(urlPath)])
  }

  /** Splitting a one-piece route and what follows it. */
  lemma SplitRoute(route: string, rest: string)
    requires '/' !in route
    ensures Split("/" + route + "/" + rest) == ["", route] + Split(rest)
  {
    var tail := route + "/" + rest;
    assert "/" + route + "/" + rest == "/" + tail;
    SplitLeadingSlash(tail);
    SplitConcat(route, rest);
    SplitName(route);
    var pieces := Split(rest);
    assert [""] + ([route] + pieces) == ["", route] + pieces;
  }

  /** Under a one-piece route, a clean relative path (or "") is requested as exactly that path. */
  lemma RequestedNames(route: string, st: seq<string>)
    requires '/' !in route && Canonical(false, st)
    ensures '/' in "/" + route + "/" + JoinSlash(st)
    ensures RequestedPath("/" + route + "/" + JoinSlash(st)) == JoinSlash(st)
  {
    var url := "/" + route + "/" + JoinSlash(st);
    assert url[0] == '/';
    SplitRoute(route, JoinSlash(st));
    if st == [] {
      SplitName("");
      assert Split(url)[2..] == [""];
      assert NonEmpty([""]) == [];
    } else {
      SplitJoin(st);
      assert Split(url)[2..] == st;
      JoinCanonical(st);
    }
  }

  /** Joining the pieces of a clean relative path gives the path back. */
  lemma JoinSplitClean(st: seq<string>)
    requires Canonical(false, st)
    ensures Join(Split(Render(false, st))) == Render(false, st)
  {
    if st == [] {
      SplitName(".");
      assert NonEmpty(["."]) == ["."];
      SplitName(".");
      assert Resolve(false, [], ["."]) == [];
    } else {
      SplitJoin(st);
      JoinCanonical(st);
    }
  }

  /**
   * The requested path survives being put back under any one-piece route:
   * re-deriving it from "/" + route + "/" + RequestedPath(url) gives it back.
   * This is what lets a temporary link's stored path reach the download handler intact.
   */
  lemma {:induction false} RequestedRoundTrip(route: string, urlPath: string)
    requires '/' !in route && '/' in urlPath
    ensures '/' in "/" + route + "/" + RequestedPath(urlPath)
    ensures RequestedPath("/" + route + "/" + RequestedPath(urlPath)) == RequestedPath(urlPath)
  {
    var p := RequestedPath(urlPath);
    var url' := "/" + route + "/" + p;
    assert url'[0] == '/';
    SplitRoute(route, p);
    assert Split(url')[2..] == Split(p);
    var segs := Split(urlPath)[2..];
    var parts := NonEmpty(segs);
    if parts == [] {
      assert p == "";
      SplitName("");
      assert NonEmpty([""]) == [];
    } else {
      var j := JoinSlash(parts);
      assert forall i :: 0 <= i < |parts| ==> '/' !in parts[i];
      JoinSlashStart(parts);
      assert !Rooted(j) by {
        assert parts[0][0] in parts[0];
      }
      var st := Resolve(false, [], Split(j));
      assert p == Render(false, st);
      JoinSplitClean(st);
    }
  }

  /**
   * Nothing keeps the path on disk under the root: the request "/<route>/.."
   * resolves to the parent of any root below "/", a strictly shorter path
   * that no path under the root can be.
   */
  lemma TraversalLeavesRoot(route: string, root: seq<string>)
    requires '/' !in route && Canonical(true, root) && root != []
    ensures '/' in "/" + route + "/" + ".."
    ensures AbsPath(Render(true, root), "/" + route + "/" + "..") == Render(true, root[..|root| - 1])
    ensures |Render(true, root[..|root| - 1])| < |Render(true, root)|
  {
    var up := [".."];
    assert Canonical(false, up);
    RequestedNames(route, up);
    JoinParent(root);
    RenderParentShorter(root);
  }

  /** path.Join(route, folder + "/", name): the link a listing gives a child, folder being a walked path. */
  function ChildLink(route: string, folder: string, name: string): string
  {
    Join([route, folder + "/", name])
  }

  lemma SplitLeadingSlash(x: string)
    ensures Split("/" + x) == [""] + Split(x)
  {
    var s := "/" + x;
    assert s[0] == '/' && s[1..] == x;
    SplitHead(s);
  }

  /** The pieces of route/folder//name. */
  lemma SplitChildLink(route: string, st: seq<string>, name: string)
    requires IsName(route) && AllNames(st) && IsName(name)
    ensures Split(route + "/" + (JoinSlash(st) + "/" + ("/" + name))) ==
      [route] + (if st == [] then [""] else st) + ["", name]
  {
    var js := JoinSlash(st);
    var tail := "/" + name;
    var inner := js + "/" + tail;
    var mid := if st == [] then [""] else st;
    SplitConcat(route, inner);
    SplitConcat(js, tail);
    SplitLeadingSlash(name);
    SplitName(route);
    SplitName(name);
    if st != [] {
      SplitJoin(st);
    }
    assert Split(js) == mid;
    Regroup(route, mid, name);
  }

  lemma Regroup(route: string, mid: seq<string>, name: string)
    ensures [route] + (mid + ([""] + [name])) == [route] + mid + ["", name]
  {
  }

  /** path.Join of the three parts joins them with slashes, the folder's own slash doubling one, and cleans. */
  lemma ChildLinkJoined(route: string, folder: string, name: string)
    requires IsName(route) && IsName(name)
    ensures ChildLink(route, folder, name) == Clean(route + "/" + (folder + "/" + ("/" + name)))
  {
    var f := folder + "/";
    var parts := [route, f, name];
    assert f[|f| - 1] == '/';
    NonEmptyAllNonEmpty(parts);
    assert parts[1..] == [f, name] && parts[1..][1..] == [name];
    assert JoinSlash([name]) == name;
    assert JoinSlash([f, name]) == f + "/" + name;
    assert JoinSlash(parts) == route + "/" + (f + "/" + name);
    assert f + "/" + name == folder + "/" + ("/" + name);
  }

  /** The elements route/folder//name resolves to: the route, the folder's elements, the name. */
  lemma ResolveChildLink(route: string, st: seq<string>, name: string)
    requires IsName(route) && AllNames(st) && IsName(name)
    ensures Resolve(false, [], Split(route + "/" + (JoinSlash(st) + "/" + ("/" + name)))) == [route] + st + [name]
  {
    SplitChildLink(route, st, name);
    var mid := if st == [] then [""] else st;
    var segs := [route] + mid + ["", name];
    ResolveNames(false, [], segs);
    NonEmptyChildSegs(route, st, name);
    assert [] + ([route] + st + [name]) == [route] + st + [name];
  }

  /** The non-empty pieces of route/folder//name. */
  lemma NonEmptyChildSegs(route: string, st: seq<string>, name: string)
    requires IsName(route) && AllNames(st) && IsName(name)
    ensures NonEmpty([route] + (if st == [] then [""] else st) + ["", name]) == [route] + st + [name]
  {
    var mid := if st == [] then [""] else st;
    var last := ["", name];
    NonEmptyConcat([route] + mid, last);
    NonEmptyConcat([route], mid);
    NonEmptyAllNonEmpty([route]);
    assert last[1..] == [name];
    NonEmptyAllNonEmpty([name]);
    if st != [] {
      NonEmptyAllNonEmpty(st);
    } else {
      assert NonEmpty(mid) == [];
    }
  }

  lemma CleanChildLink(route: string, st: seq<string>, name: string)
    requires IsName(route) && AllNames(st) && IsName(name)
    ensures Clean(route + "/" + (JoinSlash(st) + "/" + ("/" + name))) == route + "/" + JoinSlash(st + [name])
  {
    var j := route + "/" + (JoinSlash(st) + "/" + ("/" + name));
    assert !Rooted(j) by {
      assert j[0] == route[0];
    }
    ResolveChildLink(route, st, name);
    var elems := [route] + (st + [name]);
    assert [route] + st + [name] == elems;
    assert elems[1..] == st + [name];
  }

  /**
   * Following a listing entry's link asks for exactly the listed child: under
   * any one-piece route, the link to `name` in the folder st requests st + [name].
   */
  lemma ChildLinkRequestsChild(route: string, st: seq<string>, name: string)
    requires IsName(route) && AllNames(st) && IsName(name)
    ensures '/' in "/" + ChildLink(route, JoinSlash(st), name)
    ensures RequestedPath("/" + ChildLink(route, JoinSlash(st), name)) == JoinSlash(st + [name])
  {
    ChildLinkJoined(route, JoinSlash(st), name);
    CleanChildLink(route, st, name);
    var rest := JoinSlash(st + [name]);
    assert "/" + ChildLink(route, JoinSlash(st), name) == "/" + route + "/" + rest;
    RequestedNames(route, st + [name]);
  }
}
