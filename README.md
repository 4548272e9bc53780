# simplefileserver, modelled in Dafny

simplefileserver is an HTTP file server written in Go. It lets a user browse a directory
tree, download a file or a whole folder as a zip archive, and mint temporary links: tokens
that anyone can use to download one path until the link expires. This project models and
proves four parts of it.

- **The temporary-link store** (`backend/handlers.go`) is modelled in `handlers.dfy`.
  - The `Server` class holds the token map.
  - `GetTempLink` mints a link, `TempHandler` answers a token, and `LinkClean` sweeps out
    expired links.
  - The pure functions `ExpiryOf`, `Lookup` and `Sweep` state what these methods do.
- **Request-path derivation and directory listings.**
  - Every handler but the home page takes the URL path, drops its first two
    `/`-separated pieces, and `path.Join`s the rest.
  - `checkThing` (and so `Walk`, `GetTempLink` and `Download` in `backend/handlers.go`) and
    the handlers of `backend/server.go` then `path.Join` the result onto the root directory.
    `TempHandler` uses it as the token to look up instead.
  - Go's `strings.Split`, `path.Clean`, `path.Join` and `path.Base` are in `go_path.dfy`.
    `path.Clean` is specified by resolving elements one by one.
  - The derivation and the links each listing row carries are in `http.dfy`.
  - The newer listing (`Handlers.Server.Walk`) sorts rows with `sort.SliceStable` on
    upper-cased names. That sort is in `go_sort.dfy`, as an in-place insertion sort over an
    array, proved equal to a stable-sort function.
  - The older listing (`LegacyServer.Walk`, from `backend/server.go`) keeps `ReadDir`
    order.
- **Zip entry naming for folder downloads.**
  - `filepath.Walk` is modelled in `file_system.dfy` over an abstract tree, and the zip
    writer in `archive.dfy`.
  - The walk callback of `backend/downloadhandlers.go` is modelled in
    `download_handlers.dfy`. It keeps the folder's own name in each entry.
  - The older variant in `backend/server.go` is modelled in `server.dfy`. It drops the
    folder's name.
  - For both variants it is proved which entries an archive holds and what each entry is
    named.
- **The authentication gate** (`backend/auth.go`) is modelled in `auth.dfy`. It covers the
  protected-prefix search and the decision of the HTTP Basic middleware (section 2 of
  RFC 7617).

The operating system is the datatype `FileSystem.Env`. Its fields answer `os.Stat`,
`unix.Access`, `ioutil.ReadDir`, `os.Open`, and the tree `filepath.Walk` visits, each for
the exact path string the handler passes. The current time and the fresh token are
parameters. Instants are integer Unix nanoseconds. A link's expiry is kept, as the server
keeps it, in whole Unix seconds.

### Where the code departs from the server's intended design

The model follows the code in each of these cases.

- **No root confinement.** The design says a requested path is confined to the served root.
  The code does not check this. `Http.TraversalLeavesRoot` proves that the request
  `/<route>/..` reaches the parent of the root.
- **A base route of several pieces breaks every link.** Nothing checks that the configured
  base route is one piece. `TempHandler` drops only the first piece of the URL path, so
  with the base "/a/b" it looks up "b/" + token, which no mint stores
  (`Handlers.LinkPathFindsToken`, `Handlers.TwoPieceRouteMissesToken`).
- **Tokens are overwritten.** The design says a minted token never silently overwrites an
  existing one. The code assigns into the map, so a repeated token replaces the old link.
  `GetTempLink` models that assignment as written.
- **The TTL is an int64 product.** The code computes the lifetime as
  `time.Hour * time.Duration(hours)` in int64 nanoseconds, and that product wraps around
  when the hours lie outside ±2562047 (`Handlers.TtlNanos`, `Handlers.TtlExact`). A TTL of
  2562048 hours wraps to about −292 years, so the link is refused from the instant it is
  minted, as is a link with a negative TTL (`Handlers.NegativeTtlExpiredAtMint`).
- **Expiry is truncated to whole seconds.** The design treats expiry as a hard boundary at
  now + TTL. The code truncates the expiry to a whole second and tests it with `Before`.
  - A link therefore stops answering up to a second early.
  - It still answers at the first instant of its expiry second
    (`Handlers.MintedLinkLifetime`).
- **The zip walk leaks file handles.** The design says every opened file is closed. The zip
  walk never closes the files it opens (see "Left out").

## Model

| member | source | states |
|---|---|---|
| Handlers.MintedLinkLifetime | backend/handlers.go:118-126 | A link minted at instant `now` is answered at instant t exactly when t is not after the first instant of the second that now + TTL falls in. It is answered at any t at least a second before now + TTL, and refused at any t after now + TTL. TTL is `time.Hour * time.Duration(hours)` as an int64 product, wrapped around where it overflows. |
| Handlers.Wrap64 | backend/handlers.go:118 | The int64 result lies in [-2^63, 2^63), differs from the exact value by a multiple of 2^64, and equals it when it fits. |
| Handlers.TtlExact | backend/handlers.go:118 | The TTL is exactly hours × 3600 s if and only if hours lies within ±2562047. |
| Handlers.TtlWrapsNegative | backend/handlers.go:118 | A TTL of 2562048 hours wraps around to a negative number of nanoseconds. |
| Handlers.NegativeTtlExpiredAtMint | backend/handlers.go:118-146 | For a negative number of hours within -2562047, or for 2562048 hours (where the int64 product wraps around), the TTL is negative and the link is refused already at the instant it is minted. |
| Handlers.MintKeepsOtherTokens | backend/handlers.go:122-125 | Minting under a token leaves the answer for every other token unchanged. |
| Handlers.SweepKeepsLive | backend/handlers.go:152-160 | A sweep at instant n keeps a token exactly when a lookup at n would answer it. Every kept link is unchanged. |
| Handlers.SweepUnobservable | backend/handlers.go:138-160 | A lookup at or after the sweep's instant gets the same answer with or without the sweep. |
| Handlers.SweepIdempotent | backend/handlers.go:152-160 | Sweeping twice at the same instant equals sweeping once. |
| Handlers.LinkPathFindsToken | backend/handlers.go:129-141 | For a link's URL path made of a base route of any number of pieces and then the token, `TempHandler` looks up the route's pieces after the first, followed by the token. That key is the token exactly when the route is one piece, such as "/temp" or "/temp/" once cleaned. |
| Handlers.TwoPieceRouteMissesToken | backend/handlers.go:129-141 | With the base route "/a/b", the link for a token makes `TempHandler` look up "b/" + token. |
| Handlers.HomeOnlyAtRoot | backend/handlers.go:28-46 | The home page answers 200 exactly for the path "/". Every other path gets the "404\n" answer. |
| Handlers.BuildEntries | backend/handlers.go:92-99 | The loop gives one row per `ReadDir` element, in order. Each row holds the child's name, whether it is a file, and its `download` and `gettemplink` links. |
| Handlers.EntryLinks | backend/handlers.go:92-99 | In a row of a folder st made of proper names (no "." or ".." pieces), both links, put back under "/", request exactly the child `st + [name]`. The row's name and file flag are the child's. |
| Handlers.ListingSorted | backend/handlers.go:101-103 | The sorted listing has one row per child and is a permutation of the unsorted rows. It is ordered by upper-cased name, and rows with equal keys keep their `ReadDir` order. |
| Handlers.ListRows | backend/handlers.go:92-103 | Building the rows and sorting them in place in an array gives the stable sort of the unsorted listing. |
| Handlers.Server.Walk | backend/handlers.go:68-110 | A failed `os.Stat` gives the item-not-found 404. A failed `ReadDir` gives the directory-not-found 404. Otherwise the answer is the HTML listing: the requested path plus "/", and the sorted rows of the children. |
| Handlers.ReadListing | backend/handlers.go:82-109 | A failed `ReadDir` of the folder gives the directory-not-found 404. Otherwise the answer is the HTML listing of the requested path plus "/", with the rows of the children sorted stably by upper-cased name. |
| Handlers.Server.GetTempLink | backend/handlers.go:112-136 | If `checkThing` fails, the answer is its 404 and the store is unchanged. Otherwise the token is bound, overwriting any old link, to the requested path with expiry `now + TTL` in whole seconds, where TTL is the int64 product `time.Hour * time.Duration(hours)`. The message reports the path, the link URL and the hours, and then the store is swept at `sweepNow`. |
| Handlers.Server.TempHandler | backend/handlers.go:138-150 | An absent or expired token gets "404\n" and leaves the store unchanged. A live one is answered as a download of "/temp/" + its path, and the store is then swept. |
| Handlers.Server.LinkClean | backend/handlers.go:152-160 | The loop deletes keys one at a time. The new store is exactly the old one without its expired links. |
| Handlers.Server.AbsPathClean | backend/handlers.go:163-164 | The derived path on disk is "" or already clean. |
| Handlers.Server.Download | backend/handlers.go:181-192 | A download answers `checkThing`'s 404, or a folder zip for a directory, or the file otherwise. |
| Handlers.DownloadAt | backend/handlers.go:186-191 | Once the stat has succeeded, a directory gets the folder zip and anything else gets the file download. |
| Handlers.DownloadedFolder | backend/handlers.go:186-188 | Downloading a directory yields a closed archive with one stored entry per file below it. Each entry is named by the folder's base name and the file's relative path. |
| Handlers.Server.DownloadNotFound | backend/handlers.go:162-185 | A download answers 404 exactly when `os.Stat` fails on the derived path. |
| Handlers.Server.TempPathChecksSameItem | backend/handlers.go:147-164 | The stored path, rewritten under "/temp/", passes `checkThing` exactly when the original request did, and for the same path on disk. |
| Http.RequestedRoundTrip | backend/handlers.go:162-164 | Re-deriving the requested path from "/" + route + "/" + that path gives the same path. |
| Http.TraversalLeavesRoot | backend/handlers.go:163-164 | With any rooted root other than "/", the request "/<route>/.." derives the root's parent, which is strictly shorter than the root. Nothing confines the path. |
| Http.ChildLinkRequestsChild | backend/handlers.go:96-97 | For a folder made of proper names (no "." or ".." pieces), the link `path.Join(route, folder + "/", name)`, put back under "/", requests exactly the child `folder/name`. |
| GoPath.JoinIsClean | backend/handlers.go:119 | A `path.Join` result, which is what a link stores, is "" or already clean. |
| GoSort.SliceStable | backend/handlers.go:101-103 | Sorting the array in place leaves the stable sort by key of its old contents. |
| GoSort.SortStableCorrect | backend/handlers.go:101-103 | The stable sort is ordered by key and is a permutation of its input. Elements with equal keys keep their input order. |
| Auth.IsProtectedPath | backend/auth.go:25-36 | The search is true exactly when the path starts with "/download/", "/gettemplink/", "/walk/" or "/favicon.ico". |
| Auth.OpenAndProtectedPaths | backend/auth.go:29-35 | These are unprotected: "/", "/temp/<token>" and "/walk" without its slash. These are protected: anything under "/walk/", and anything starting with "/favicon.ico". |
| Auth.FailOpen | backend/auth.go:9-12 | With the username or the password empty, every request reaches the next handler. |
| Auth.OnlyMatchingCredentialsPass | backend/auth.go:13-21 | With both configured, a request reaches the next handler exactly when it carries those very credentials. Every other request gets 401 "Unauthorized." with the `Basic realm="simplefileserver"` challenge. |
| DownloadHandlers.ZipWalk | backend/downloadhandlers.go:20-49 | The walk callback writes, in walk order, one stored entry per non-directory visit, and the writer is then closed. No visit stops the walk. |
| DownloadHandlers.DownloadFolder | backend/downloadhandlers.go:18-50 | The attachment is named `path.Base(absPath)` + ".zip", and the body is the closed archive of the walk's entries. |
| DownloadHandlers.DownloadFolderEntries | backend/downloadhandlers.go:22-28 | The archive holds exactly the files below the folder, in walk order, each stored uncompressed. Each is named by the folder's base name, "/", and its relative path. The prefix is absent when the folder is "/", "." or "". Directories, the folder included, give no entry. |
| DownloadHandlers.FolderEntries | backend/downloadhandlers.go:26 | For any derived folder path and any cut that keeps k of the folder's own pieces: every walked path is long enough to cut. The entries are the files below the folder, named by what is left of the folder's prefix and the relative path. |
| DownloadHandlers.WalkInRange | backend/downloadhandlers.go:26 | The slice `[len(Split(absPath))-1:]` is in range for every path the walk reaches, so the callback never panics. |
| DownloadHandlers.FolderPrefixIsBase | backend/downloadhandlers.go:19-26 | When a folder contributes a name to its entries, that name is `path.Base(absPath)`, the name the archive is given. |
| DownloadHandlers.NamedEntries | backend/downloadhandlers.go:26-28 | The i-th relative file path gives the i-th entry: stored, and named by the prefix and that path. |
| DownloadHandlers.ServeFile | backend/downloadhandlers.go:52-74 | If the open fails, the answer is "Unable to get file" with no attachment and no handle. Otherwise the file is served as an attachment named `path.Base` of the URL path. It is dated by its mtime, or by the zero time when `os.Stat` fails, and its handle is closed. |
| DownloadHandlers.DownloadFile | backend/downloadhandlers.go:52-74 | `ServeFile` with the header key "Content-Disposition". |
| Archive.ZipWriter.CreateHeader | backend/downloadhandlers.go:28 | On an open writer, which is the only kind the server calls it on, it appends exactly one entry with the given name and method. The model's failure on a closed writer, which changes nothing, is a modelling choice: archive/zip itself does not check this. |
| Archive.ZipWriter.Close | backend/downloadhandlers.go:45 | The writer is closed and keeps its entries. |
| FileSystem.FileHandle.Close | backend/downloadhandlers.go:73 | The handle is closed. |
| LegacyServer.HomeOnlyAtRoot | backend/server.go:55-66 | "Home\n" is answered exactly for the path "/". Every other path gets "my404\n". |
| LegacyServer.BuildEntries | backend/server.go:104-110 | The loop gives one row per `ReadDir` element, in order. |
| LegacyServer.Walk | backend/server.go:79-116 | An unreadable path, a failed stat, or a non-directory gets the directory-not-found 404. Otherwise the answer is the listing of the requested path + "/" with its rows in `ReadDir` order, unsorted. A failed `ReadDir` gives an empty listing. |
| LegacyServer.ListingRows | backend/server.go:95-110 | For a folder made of proper names (no "." or ".." pieces), each row names its child and says whether it is a file. Its download link requests exactly that child. |
| LegacyServer.DownloadFolder | backend/server.go:139-171 | The attachment is always "test.zip.zip", under the key "Content-Disposition:". The body is the closed archive of the walk's entries. |
| LegacyServer.FolderEntriesRelative | backend/server.go:143-149 | With the intended cut, the archive holds exactly the files below the folder, in walk order, stored, each named by its path relative to the folder. |
| LegacyServer.WrittenDropAgrees | backend/server.go:148 | For a folder whose last piece is a name, the cut as written equals the intended one. |
| LegacyServer.TopFolderLosesNames | backend/server.go:148 | With the cut as written, downloading "/" or "." holding one file names its entry "". The intended cut names it after the file. |
| LegacyServer.DownloadFile | backend/server.go:173-196 | `ServeFile` with the header key "Content-Disposition:". |
| LegacyServer.Download | backend/server.go:118-137 | An unreadable path or a failed stat gets the item-not-found 404. Otherwise a directory gets the folder zip and a file gets the file download. |
| LegacyServer.DownloadAt | backend/server.go:132-136 | A directory gets the folder zip, and anything else the file download. |
| LegacyServer.DownloadNotFound | backend/server.go:122-130 | A download answers 404 exactly when the path is unreadable or `os.Stat` fails on it. |
| LegacyServer.AbsPathClean | backend/server.go:119-120 | The derived path on disk is "" or already clean. |

## Left out

- Concurrency is not modelled. The `RWMutex` and the background `go s.linkClean()` become
  sequential calls. The sweep that follows a mint or a lookup runs at its own instant
  `sweepNow`.
- Handlers.Server.LinkClean: checks every link against one instant. The source calls
  `time.Now()` again for each link.
- Handlers.LinkPathFindsToken: starts from the URL path of a reported link. How a client
  splits the reported URL `"https://" + path.Join(host, base, token)` into host and path is
  not modelled.
- `uuid.New()` and `time.Now()` are parameters: the token and the instants.
- Nothing is written to a socket, and response bytes are not modelled.
  - `http.ServeContent` (ranges and conditional requests) is reduced to "the file's content
    under this name and date".
  - The zip byte layout and file contents (`io.Copy`) are not modelled. An archive is its
    sequence of entry names and methods, plus whether it was closed.
- The zip walk opens files and never closes them (`fileReader`), and ignores their open
  errors. No handle for those files is modelled.
- `r.BasicAuth()` header parsing is not modelled. Its result is an input.
- `strings.ToUpper` is modelled for ASCII letters only. Other characters keep their case.
- `sort.SliceStable` is modelled as the insertion sort Go uses on short slices. Any stable
  sort by the same key gives the same result. `GoSort.SortStableCorrect` proves that the
  modelled result is ordered by key, is a permutation of its input, and keeps the input
  order of equal keys.
- The order of a directory's children comes from the tree `FileSystem.Env` supplies.
  `filepath.Walk` reads them in lexical order, and the model does not impose that order.
- `FileSystem.Env` answers every call for a path the same way within a request. Races
  between a check and a later use (such as `unix.Access`, then `ReadDir`) are not modelled.
- `filepath.Walk` calls back with a nil info when it cannot `Lstat` a path: a root that
  vanished after the stat, or a child that `ReadDir` listed but that vanished before its
  own `Lstat`. The callbacks (`backend/downloadhandlers.go:23`, `backend/server.go:145`)
  would then panic on `info.IsDir()`. That case is not modelled.
- `log.Fatal` exits on a failed response write (in `backend/server.go` and at
  `backend/downloadhandlers.go:57`). Logging and write errors are not modelled.
- Every handler requires a URL path that contains "/". Without one, `strings.Split(...)[2:]`
  would panic. A request that reaches a handler through the router always starts with "/".
- The links of a listing are shown to request their own child only for a folder made of
  proper names. The code also lists a folder reached through ".." (such as "/walk/../x"),
  and there `path.Join` cleans the ".." out of the link, so the link requests another path.
  That case is not modelled.
- The Favicon handler is not modelled. `backend/config.go`, `backend/logger.go`,
  `backend/templates.go`, `backend/util.go`, `main.go` and `cmd/simplefileserver/main.go`
  are not part of this model. The home page body and the listing template are opaque
  values.
- The listing template's rendering (`walkTemplate.Execute`) is not modelled. The listing is
  its `walkData` value.
- LegacyServer.DownloadFolder: uses the intended cut of `LegacyServer.LegacyDrop`, not the
  `len(strings.Split(absPath, "/"))` written at `backend/server.go:148`. The two differ only
  for the folders "/", "." and "" (see Findings). The code as written is
  `LegacyServer.WrittenDrop`.

## Findings

| source | as written | input that shows it | evidently intended | confidence | as-written member | corrected member |
|---|---|---|---|---|---|---|
| backend/server.go:148 | Each walked path drops `len(strings.Split(absPath, "/"))` pieces | Root "/" with request "/download/": a folder "/" holding the file "n" gives the entry name "" (likewise for the folder "."). | Drop one piece fewer when the folder's last piece is "" or ".", so that every file is named by its path relative to the folder. | not executed | LegacyServer.TopFolderLosesNames | LegacyServer.FolderEntriesRelative |
