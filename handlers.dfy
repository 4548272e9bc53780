/**
 * The newer server's handlers (handlers.go): the home page, the sorted
 * directory listing, downloads, and the store of temporary links, which
 * hands out tokens that expire after a number of hours, answers them, and
 * sweeps out the expired ones.
 *
 * Instants are Unix nanoseconds; a link's expiry is kept, as the server keeps
 * it, in whole Unix seconds.
 */
module Handlers {
  import opened Wrappers
  import opened GoPath
  import opened GoSort
  import opened FileSystem
  import opened Http
  import opened DownloadHandlers

  /** One row of the listing template. */
  datatype Entry = Entry(name: Name, file: bool, downloadPath: string, genTempLink: string)

  datatype WalkData = WalkData(path: string, entries: seq<Entry>)

  /** A temporary link: the requested path it serves and the Unix second after which it is refused. */
  datatype TempLink = TempLink(path: string, timeStamp: int)

  const NanosPerSecond := 1_000_000_000
  const NanosPerHour := 3600 * NanosPerSecond

  /** The least int64, -2^63. */
  const MinInt64 := -0x8000_0000_0000_0000
  const TwoTo64 := 0x1_0000_0000_0000_0000

  /** The largest number of hours whose time.Duration, in nanoseconds, fits an int64. */
  const MaxTtlHours := 2562047

  // ---------------------------------------------------------------------------
  // The link store, as values

  /** x as Go's int64 arithmetic leaves it: wrapped around into [-2^63, 2^63). */
  function Wrap64(x: int): (r: int)
    ensures MinInt64 <= r < -MinInt64
    ensures (x - r) % TwoTo64 == 0
    ensures MinInt64 <= x < -MinInt64 ==> r == x
  {
    (x - MinInt64) % TwoTo64 + MinInt64
  }

  /** time.Hour * time.Duration(hours): the link's lifetime in nanoseconds, an int64 product. */
  function TtlNanos(hours: int): int
  {
    Wrap64(NanosPerHour * hours)
  }

  /** time.Now().Add(time.Hour * time.Duration(hours)).Unix() for now in Unix nanoseconds: the second it falls in. */
  function ExpiryOf(now: int, hours: int): int
  {
    (now + TtlNanos(hours)) / NanosPerSecond
  }

  /** The lifetime is hours * 3600 s exactly when that product fits an int64; otherwise it has wrapped around. */
  lemma TtlExact(hours: int)
    ensures TtlNanos(hours) == hours * NanosPerHour <==> -MaxTtlHours <= hours <= MaxTtlHours
  {
    if hours > MaxTtlHours {
      assert NanosPerHour * hours >= NanosPerHour * (MaxTtlHours + 1) > -MinInt64;
    } else if hours < -MaxTtlHours {
      assert NanosPerHour * hours <= NanosPerHour * (-MaxTtlHours - 1) < MinInt64;
    }
  }

  /**
   * A link whose lifetime comes out negative is refused from the instant it
   * is minted. That happens for a negative TTL that fits an int64 and, after
   * the int64 product wraps around, for a TTL of MaxTtlHours + 1 hours
   * (about 292 years).
   */
  lemma NegativeTtlExpiredAtMint(links: map<string, TempLink>, token: string, path: string, now: int, hours: int)
    requires -MaxTtlHours <= hours < 0 || hours == MaxTtlHours + 1
    ensures TtlNanos(hours) < 0
    ensures Lookup(links[token := TempLink(path, ExpiryOf(now, hours))], token, now) == None
  {
    if hours < 0 {
      TtlExact(hours);
    } else {
      TtlWrapsNegative();
    }
    var x := now + TtlNanos(hours);
    assert ExpiryOf(now, hours) * NanosPerSecond == x - x % NanosPerSecond;
  }

  /** The first TTL past MaxTtlHours wraps around to a negative lifetime. */
  lemma TtlWrapsNegative()
    ensures TtlNanos(MaxTtlHours + 1) == NanosPerHour * (MaxTtlHours + 1) - TwoTo64 < 0
  {
  }

  /** time.Unix(l.timeStamp, 0).Before(now). */
  predicate Expired(l: TempLink, now: int)
  {
    l.timeStamp * NanosPerSecond < now
  }

  /** What TempHandler finds under a token at instant now: the link, unless it is absent or expired. */
  function Lookup(links: map<string, TempLink>, token: string, now: int): Option<TempLink>
  {
    if token in links && !Expired(links[token], now) then Some(links[token]) else None
  }

  /** What linkClean leaves at instant now: the links that have not expired. */
  function Sweep(links: map<string, TempLink>, now: int): map<string, TempLink>
  {
    map k | k in links && !Expired(links[k], now) :: links[k]
  }

  /**
   * A link minted at instant now for `hours` hours is answered up to and
   * including the first instant of the second that now + TTL falls in, and
   * refused after it: the expiry is truncated to whole seconds, so at any
   * instant at least a second before now + TTL it is answered, and after
   * now + TTL it is not. The TTL is hours * 3600 s when that fits an int64
   * (TtlExact), and its wrapped-around value otherwise.
   */
  lemma MintedLinkLifetime(links: map<string, TempLink>, token: string, path: string, now: int, hours: int, t: int)
    ensures var l := TempLink(path, ExpiryOf(now, hours));
      var x := now + TtlNanos(hours);
      && (Lookup(links[token := l], token, t) == Some(l) <==> t <= x - x % NanosPerSecond)
      && (t <= x - NanosPerSecond ==> Lookup(links[token := l], token, t) == Some(l))
      && (x < t ==> Lookup(links[token := l], token, t) == None)
  {
    var x := now + TtlNanos(hours);
    assert ExpiryOf(now, hours) * NanosPerSecond == x - x % NanosPerSecond;
  }

  /** Minting a token leaves what every other token answers unchanged. */
  lemma MintKeepsOtherTokens(links: map<string, TempLink>, token: string, l: TempLink, other: string, t: int)
    requires other != token
    ensures Lookup(links[token := l], other, t) == Lookup(links, other, t)
  {
  }

  /** A sweep at instant n keeps exactly the links a lookup at n would answer, unchanged. */
  lemma SweepKeepsLive(links: map<string, TempLink>, n: int, k: string)
    ensures k in Sweep(links, n) <==> Lookup(links, k, n).Some?
    ensures k in Sweep(links, n) ==> Sweep(links, n)[k] == links[k]
  {
  }

  /** No lookup at or after a sweep's instant can tell that the sweep happened. */
  lemma SweepUnobservable(links: map<string, TempLink>, n: int, k: string, t: int)
    requires n <= t
    ensures Lookup(Sweep(links, n), k, t) == Lookup(links, k, t)
  {
  }

  /** Sweeping twice at the same instant is sweeping once. */
  lemma SweepIdempotent(links: map<string, TempLink>, n: int)
    ensures Sweep(Sweep(links, n), n) == Sweep(links, n)
  {
  }

  /**
   * A link's URL path is its base route, in pieces, then the token. TempHandler
   * drops only the route's first piece, so it looks up the route's other
   * pieces followed by the token: exactly the token when the route is one
   * piece, and a key no mint ever stores when it is longer.
   */
  lemma LinkPathFindsToken(first: Name, rest: seq<Name>, token: Name)
    ensures var url := "/" + first + "/" + JoinSlash(rest + [token]);
      && '/' in url
      && RequestedPath(url) == JoinSlash(rest + [token])
      && (RequestedPath(url) == token <==> rest == [])
  {
    var st := rest + [token];
    assert AllNames(st) by {
      forall i | 0 <= i < |st|
        ensures IsName(st[i])
      {
        assert i < |rest| ==> st[i] == rest[i];
      }
    }
    RequestedNames(first, st);
    if rest == [] {
      assert JoinSlash(st) == token;
    } else {
      var joined := JoinSlash(st);
      assert joined == rest[0] + "/" + JoinSlash(st[1..]);
      assert joined[|rest[0]|] == '/';
      assert '/' !in token;
    }
  }

  /** With the base route "/a/b", the link for a token makes TempHandler look up "b/" + token. */
  lemma TwoPieceRouteMissesToken(token: Name)
    ensures '/' in "/a/b/" + token
    ensures RequestedPath("/a/b/" + token) == "b/" + token
  {
    LinkPathFindsToken("a", ["b"], token);
    assert JoinSlash(["b", token]) == "b/" + token;
    assert "/" + "a" + "/" + ("b/" + token) == "/a/b/" + token;
  }

  // ---------------------------------------------------------------------------
  // Fixed answers

  function NotFound(): Response<WalkData>
  {
    Response(StatusNotFound, map[], Text("404\n"))
  }

  /** The answer checkThing writes when os.Stat fails. */
  function ItemNotFound(): Response<WalkData>
  {
    Response(StatusNotFound, map[], Text("Either the requested item doesn't exist or access was denied"))
  }

  /** The answer Walk writes when the directory cannot be read. */
  function DirNotFound(): Response<WalkData>
  {
    Response(StatusNotFound, map[], Text("Either the requested directory doesn't exist or access was denied"))
  }

  function Home(urlPath: string): Response<WalkData>
  {
    if urlPath != "/" then NotFound() else Response(StatusOK, map[], HomePage)
  }

  /** The home page is served at "/" only; every other path it is routed gets the 404 answer. */
  lemma HomeOnlyAtRoot(urlPath: string)
    ensures Home(urlPath).status == StatusOK <==> urlPath == "/"
    ensures urlPath != "/" ==> Home(urlPath) == NotFound()
  {
  }

  /** fmt's %d of an int. */
  function Decimal(n: int): string
  {
    if n < 0 then "-" + Digits(-n) else Digits(n)
  }

  function Digits(n: nat): string
  {
    if n < 10 then [('0' as int + n) as char] else Digits(n / 10) + [('0' as int + n % 10) as char]
  }

  /** The text GetTempLink writes. */
  function MintMessage(path: string, url: string, hours: int): string
  {
    "File: " + path + "\nTemporary link: " + url + "\n\n\nOnly valid for " + Decimal(hours) + " hours"
  }

  function TrimPrefix(s: string, prefix: string): string
  {
    if prefix <= s then s[|prefix|..] else s
  }

  // ---------------------------------------------------------------------------
  // The listing

  /** The row for one child of the folder at the requested path. */
  function MakeEntry(requested: string, f: DirEntry): Entry
  {
    Entry(f.name, !f.isDir, ChildLink("download", requested, f.name), ChildLink("gettemplink", requested, f.name))
  }

  /** The rows in ReadDir order, before sorting. */
  function ListingOf(requested: string, files: seq<DirEntry>): seq<Entry>
  {
    seq(|files|, i requires 0 <= i < |files| => MakeEntry(requested, files[i]))
  }

  /** The sort key: the name in upper case. */
  function NameKey(e: Entry): string
  {
    ToUpper(e.name)
  }

  /** The loop of Walk: one row per child, in ReadDir order. */
  method BuildEntries(requested: string, files: seq<DirEntry>) returns (entries: seq<Entry>)
    ensures |entries| == |files|
    ensures forall i :: 0 <= i < |files| ==> entries[i] == MakeEntry(requested, files[i])
  {
    entries := [];
    for i := 0 to |files|
      invariant |entries| == i
      invariant forall k :: 0 <= k < i ==> entries[k] == MakeEntry(requested, files[k])
    {
      entries := entries + [MakeEntry(requested, files[i])];
    }
  }

  /**
   * Each row of the listing of the folder st names a child, says whether it
   * is a file, and links to the download and to the temporary link of
   * exactly that child.
   */
  lemma EntryLinks(st: seq<string>, f: DirEntry)
    requires AllNames(st)
    ensures var e := MakeEntry(JoinSlash(st), f);
      && e.name == f.name && e.file == !f.isDir
      && '/' in "/" + e.downloadPath && '/' in "/" + e.genTempLink
      && RequestedPath("/" + e.downloadPath) == JoinSlash(st + [f.name])
      && RequestedPath("/" + e.genTempLink) == JoinSlash(st + [f.name])
  {
    ChildLinkRequestsChild("download", st, f.name);
    ChildLinkRequestsChild("gettemplink", st, f.name);
  }

  /**
   * The listing is the rows of the children sorted by upper-cased name: one
   * row per child, none lost or added, ordered by key, and rows with equal
   * keys in ReadDir order.
   */
  lemma ListingSorted(requested: string, files: seq<DirEntry>)
    ensures var rows := SortStable(ListingOf(requested, files), NameKey);
      && |rows| == |files|
      && multiset(rows) == multiset(ListingOf(requested, files))
      && Sorted(rows, NameKey)
      && forall k :: KeyFilter(rows, NameKey, k) == KeyFilter(ListingOf(requested, files), NameKey, k)
  {
    var rows := SortStable(ListingOf(requested, files), NameKey);
    SortStableCorrect(ListingOf(requested, files), NameKey);
    assert |rows| == |multiset(rows)|;
  }

  // ---------------------------------------------------------------------------
  // The server

  /** What downloading the item at absPath answers, once os.Stat has found it. */
  function DownloadItem(env: Env, urlPath: string, absPath: string): Response<WalkData>
    requires absPath == "" || Clean(absPath) == absPath
    requires env.stat(absPath).Some?
  {
    if env.stat(absPath).value.isDir then
      FolderResponse(DispositionKey, Base(absPath), FolderZip(absPath, env.tree(absPath)))
    else
      FileResponse(env, DispositionKey, urlPath, absPath)
  }

  /** The dispatch of Download once checkThing has passed: a folder download for a directory, a file download otherwise. */
  method DownloadAt(env: Env, urlPath: string, absPath: string) returns (resp: Response<WalkData>)
    requires absPath == "" || Clean(absPath) == absPath
    requires env.stat(absPath).Some?
    ensures env.stat(absPath).value.isDir ==>
      resp == FolderResponse(DispositionKey, Base(absPath), FolderZip(absPath, env.tree(absPath)))
    ensures !env.stat(absPath).value.isDir ==> resp == FileResponse(env, DispositionKey, urlPath, absPath)
  {
    var fileInfo := env.stat(absPath).value;
    if fileInfo.isDir {
      resp := DownloadFolder(env, absPath);
    } else {
      var file;
      resp, file := DownloadFile(env, urlPath, absPath);
    }
  }

  /**
   * Downloading a directory gives one stored entry per file below it, named
   * by the folder's base name and the file's relative path.
   */
  lemma DownloadedFolder(env: Env, urlPath: string, absPath: string)
    requires absPath == "" || Clean(absPath) == absPath
    requires env.stat(absPath).Some? && env.stat(absPath).value.isDir && env.tree(absPath).Dir?
    ensures DownloadItem(env, urlPath, absPath).body ==
      Archive(Named(if FolderPrefix(absPath) == [] then [] else [Base(absPath)], Files([], env.tree(absPath))), true)
  {
    DownloadFolderEntries(absPath, env.tree(absPath));
  }

  /** The 200 page of a directory listing: the requested path with a trailing slash, and its rows. */
  function ListingPage(requested: string, rows: seq<Entry>): Response<WalkData>
  {
    Response(StatusOK, map["Content-Type" := "text/html; charset=utf-8"], Listing(WalkData(requested + "/", rows)))
  }

  /**
   * The rows of a listing as Walk builds them: one entry per child, appended
   * in ReadDir order, then sort.SliceStable by upper-cased name, in place.
   */
  method ListRows(requested: string, files: seq<DirEntry>) returns (rows: seq<Entry>)
    ensures rows == SortStable(ListingOf(requested, files), NameKey)
  {
    var entries := BuildEntries(requested, files);
    assert entries == ListingOf(requested, files);
    var a := new Entry[|entries|](i requires 0 <= i < |entries| => entries[i]);
    assert a[..] == entries;
    SliceStable(a, NameKey);
    rows := a[..];
  }

  /**
   * The second half of Walk: the folder's children, read with ReadDir, become
   * the sorted listing; a failed ReadDir gets the directory-not-found 404.
   */
  method ReadListing(env: Env, absPath: string, requested: string) returns (resp: Response<WalkData>)
    ensures env.readDir(absPath + "/").None? ==> resp == DirNotFound()
    ensures env.readDir(absPath + "/").Some? ==>
      resp == ListingPage(requested, SortStable(ListingOf(requested, env.readDir(absPath + "/").value), NameKey))
  {
    var listed := env.readDir(absPath + "/");
    if listed.None? {
      return DirNotFound();
    }
    var rows := ListRows(requested, listed.value);
    resp := ListingPage(requested, rows);
  }

  class Server {
    const rootDir: string
    const tempLinksHours: int
    const tempLinkBase: string
    var tempLinks: map<string, TempLink>

    constructor (rootDir: string, tempLinksHours: int, tempLinkBase: string)
      ensures this.rootDir == rootDir && this.tempLinksHours == tempLinksHours && this.tempLinkBase == tempLinkBase
      ensures tempLinks == map[]
    {
      this.rootDir := rootDir;
      this.tempLinksHours := tempLinksHours;
      this.tempLinkBase := tempLinkBase;
      tempLinks := map[];
    }

    /** checkThing: the path on disk of the requested item, or None once it has answered 404 because os.Stat failed. */
    function CheckThing(env: Env, urlPath: string): Option<string>
      requires '/' in urlPath
    {
      var absPath := AbsPath(rootDir, urlPath);
      if env.stat(absPath).None? then None else Some(absPath)
    }

    /** The full URL GetTempLink reports for a token. */
    function TempLinkUrl(host: string, token: string): string
    {
      "https://" + Join([host, TrimPrefix(tempLinkBase, "/"), token])
    }

    /**
     * Walk: the item must pass checkThing, and its directory must be
     * readable; the listing shows the requested path with a trailing slash and
     * the rows of its children sorted stably by upper-cased name.
     */
    method Walk(env: Env, urlPath: string) returns (resp: Response<WalkData>)
      requires '/' in urlPath
      ensures CheckThing(env, urlPath).None? ==> resp == ItemNotFound()
      ensures CheckThing(env, urlPath).Some? ==>
        var listed := env.readDir(CheckThing(env, urlPath).value + "/");
        && (listed.None? ==> resp == DirNotFound())
        && (listed.Some? ==>
          var requested := RequestedPath(urlPath);
          resp == ListingPage(requested, SortStable(ListingOf(requested, listed.value), NameKey)))
    {
      var checked := CheckThing(env, urlPath);
      if checked.None? {
        return ItemNotFound();
      }
      var absPath := checked.value;
      var requested := RequestedPath(urlPath);
      resp := ReadListing(env, absPath, requested);
    }

    /**
     * GetTempLink: once checkThing has passed, the token is bound to the
     * requested path until now + tempLinksHours (overwriting whatever it was
     * bound to), the link is reported, and a sweep follows at sweepNow.
     * Nothing is stored when checkThing fails.
     */
    method GetTempLink(env: Env, urlPath: string, host: string, token: string, now: int, sweepNow: int)
      returns (resp: Response<WalkData>)
      requires '/' in urlPath
      modifies this
      ensures CheckThing(env, urlPath).None? ==> resp == ItemNotFound() && tempLinks == old(tempLinks)
      ensures CheckThing(env, urlPath).Some? ==>
        var link := TempLink(RequestedPath(urlPath), ExpiryOf(now, tempLinksHours));
        && tempLinks == Sweep(old(tempLinks)[token := link], sweepNow)
        && resp == Response(StatusOK, map[], Text(MintMessage(link.path, TempLinkUrl(host, token), tempLinksHours)))
    {
      var checked := CheckThing(env, urlPath);
      if checked.None? {
        return ItemNotFound();
      }
      var timeStamp := ExpiryOf(now, tempLinksHours);
      var filePath := RequestedPath(urlPath);
      tempLinks := tempLinks[token := TempLink(filePath, timeStamp)];
      var url := "https://" + Join([host, TrimPrefix(tempLinkBase, "/"), token]);
      resp := Response(StatusOK, map[], Text(MintMessage(filePath, url, tempLinksHours)));
      LinkClean(sweepNow);
    }

    /**
     * TempHandler: an absent or expired token gets the 404 answer and the
     * store is left alone; otherwise the link's path is downloaded as
     * "/temp/" + path, and a sweep follows at sweepNow.
     */
    method TempHandler(env: Env, urlPath: string, now: int, sweepNow: int) returns (resp: Response<WalkData>)
      requires '/' in urlPath
      modifies this
      ensures Lookup(old(tempLinks), RequestedPath(urlPath), now).None? ==>
        resp == NotFound() && tempLinks == old(tempLinks)
      ensures Lookup(old(tempLinks), RequestedPath(urlPath), now).Some? ==>
        var path := Lookup(old(tempLinks), RequestedPath(urlPath), now).value.path;
        && '/' in "/temp/" + path
        && resp == DownloadResult(env, "/temp/" + path)
        && tempLinks == Sweep(old(tempLinks), sweepNow)
    {
      var requestedToken := RequestedPath(urlPath);
      var found := Lookup(tempLinks, requestedToken, now);
      if found.None? {
        return NotFound();
      }
      var rewritten := "/temp/" + found.value.path;
      assert rewritten[0] == '/';
      resp := Download(env, rewritten);
      LinkClean(sweepNow);
    }

    /** linkClean: deletes, in any order, every link expired at instant now. */
    method LinkClean(now: int)
      modifies this
      ensures tempLinks == Sweep(old(tempLinks), now)
    {
      var keys := tempLinks.Keys;
      while keys != {}
        invariant keys <= old(tempLinks).Keys
        invariant forall k :: k in tempLinks <==> k in old(tempLinks) && (k in keys || !Expired(old(tempLinks)[k], now))
        invariant forall k :: k in tempLinks ==> tempLinks[k] == old(tempLinks)[k]
        decreases keys
      {
        var k :| k in keys;
        if Expired(tempLinks[k], now) {
          tempLinks := tempLinks - {k};
        }
        keys := keys - {k};
      }
    }

    /** What Download answers: checkThing's 404, or what the item on disk gives. */
    function DownloadResult(env: Env, urlPath: string): Response<WalkData>
      requires '/' in urlPath
    {
      match CheckThing(env, urlPath)
      case None => ItemNotFound()
      case Some(absPath) =>
        AbsPathClean(urlPath);
        DownloadItem(env, urlPath, absPath)
    }

    /** The path on disk that a request names is "" or clean. */
    lemma AbsPathClean(urlPath: string)
      requires '/' in urlPath
      ensures AbsPath(rootDir, urlPath) == "" || Clean(AbsPath(rootDir, urlPath)) == AbsPath(rootDir, urlPath)
    {
      JoinIsClean([rootDir, RequestedPath(urlPath)]);
    }

    /** Download: checkThing, then a folder download for a directory and a file download otherwise. */
    method Download(env: Env, urlPath: string) returns (resp: Response<WalkData>)
      requires '/' in urlPath
      ensures resp == DownloadResult(env, urlPath)
    {
      var checked := CheckThing(env, urlPath);
      if checked.None? {
        return ItemNotFound();
      }
      var absPath := checked.value;
      AbsPathClean(urlPath);
      resp := DownloadAt(env, urlPath, absPath);
      assert resp == DownloadItem(env, urlPath, absPath);
    }

    /** A download answers 404 exactly when os.Stat fails on the derived path. */
    lemma DownloadNotFound(env: Env, urlPath: string)
      requires '/' in urlPath
      ensures DownloadResult(env, urlPath).status == StatusNotFound <==> env.stat(AbsPath(rootDir, urlPath)).None?
    {
    }

    /**
     * The path a temporary link stores, put back under "/temp/", passes
     * checkThing exactly when the path it was minted from did, and for the
     * same path on disk.
     */
    lemma TempPathChecksSameItem(env: Env, urlPath: string)
      requires '/' in urlPath
      ensures '/' in "/temp/" + RequestedPath(urlPath)
      ensures CheckThing(env, "/temp/" + RequestedPath(urlPath)) == CheckThing(env, urlPath)
    {
      assert "/temp/" + RequestedPath(urlPath) == "/" + "temp" + "/" + RequestedPath(urlPath);
      RequestedRoundTrip("temp", urlPath);
    }
  }
}
