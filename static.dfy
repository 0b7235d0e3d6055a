/**
 * `serveStaticFile`: the request path is mapped (`/` to `/index.html`),
 * normalised, stripped of leading parents and joined onto the server's
 * directory; a result outside that directory's name is refused with 403,
 * an unreadable file gives 404, and a readable one is sent with the content
 * type of its extension.
 *
 * The server's directory (`__dirname`) is given as its list of segments,
 * and reading a file is an oracle `read` that gives the bytes or nothing.
 */
module Static {
  import opened Wrappers
  import opened Text
  import opened Paths
  import opened Http

  /** `CONTENT_TYPES` */
  const ContentTypes: map<string, string> := map[
    ".html" := "text/html; charset=utf-8",
    ".png" := "image/png",
    ".jpg" := "image/jpeg",
    ".jpeg" := "image/jpeg",
    ".css" := "text/css; charset=utf-8",
    ".js" := "application/javascript; charset=utf-8",
    ".svg" := "image/svg+xml",
    ".ico" := "image/x-icon"
  ]

  const DefaultContentType: string := "application/octet-stream"

  /** `CONTENT_TYPES[ext.toLowerCase()] || 'application/octet-stream'` */
  function ContentTypeFor(ext: string): string {
    var key := ToLower(ext);
    if key in ContentTypes then ContentTypes[key] else DefaultContentType
  }

  /** The lookup ignores the case of the extension, gives a listed
      extension its entry and every other one the generic binary type. */
  lemma ContentTypeLookup(ext: string)
    ensures ContentTypeFor(ext) == ContentTypeFor(ToLower(ext))
    ensures ContentTypeFor(ext) == DefaultContentType <==> ToLower(ext) !in ContentTypes
    ensures ToLower(ext) in ContentTypes ==> ContentTypeFor(ext) == ContentTypes[ToLower(ext)]
  {
    LowerFixed(ToLower(ext));
    assert DefaultContentType !in ContentTypes.Values;
  }

  /** The eight listed extensions and one that is not listed. */
  lemma ListedContentTypes()
    ensures ContentTypeFor(".html") == "text/html; charset=utf-8"
    ensures ContentTypeFor(".png") == "image/png"
    ensures ContentTypeFor(".jpg") == ContentTypeFor(".jpeg") == "image/jpeg"
    ensures ContentTypeFor(".css") == "text/css; charset=utf-8"
    ensures ContentTypeFor(".js") == "application/javascript; charset=utf-8"
    ensures ContentTypeFor(".svg") == "image/svg+xml"
    ensures ContentTypeFor(".ico") == "image/x-icon"
    ensures ContentTypeFor(".txt") == ContentTypeFor("") == DefaultContentType
  {
    LowerFixed(".html");
    LowerFixed(".png");
    LowerFixed(".jpg");
    LowerFixed(".jpeg");
    LowerFixed(".css");
    LowerFixed(".js");
    LowerFixed(".svg");
    LowerFixed(".ico");
    LowerFixed(".txt");
    LowerFixed("");
  }

  /** Upper-case extensions get the entry of their lower-case form. */
  lemma UpperCaseContentTypes()
    ensures ContentTypeFor(".HTML") == "text/html; charset=utf-8"
    ensures ContentTypeFor(".JPG") == "image/jpeg"
  {
    assert ToLower(".HTML") == ".html";
    assert ToLower(".JPG") == ".jpg";
  }

  /** The directory the server serves from, as a path. */
  function RootDir(rootSegs: seq<string>): string {
    "/" + Join(rootSegs)
  }

  /** `req.url === '/' ? '/index.html' : req.url` */
  function RequestPath(url: string): string {
    if url == "/" then "/index.html" else url
  }

  /** The normalised request path with its leading parents removed. */
  function SafeRelative(url: string): string {
    StripParents(Normalize(RequestPath(url)))
  }

  /** `path.join(__dirname, normalizedPath)` */
  function FilePath(rootSegs: seq<string>, url: string): string {
    JoinPath(RootDir(rootSegs), SafeRelative(url))
  }

  /** The segments `path.join(__dirname, q)` resolves to. */
  function JoinedSegments(rootSegs: seq<string>, q: string): seq<string> {
    ResolveFrom([], Split(JoinedPath(RootDir(rootSegs), q)), true)
  }

  /** The segments `FilePath` is rendered from. */
  function ResolvedSegments(rootSegs: seq<string>, url: string): seq<string> {
    JoinedSegments(rootSegs, SafeRelative(url))
  }

  /** `filePath.startsWith(__dirname)` */
  predicate InsideRoot(rootSegs: seq<string>, url: string) {
    StartsWith(FilePath(rootSegs, url), RootDir(rootSegs))
  }

  /** `serveStaticFile` */
  function ServeStatic(rootSegs: seq<string>, url: string, read: string -> Option<seq<byte>>): Response {
    var filePath := FilePath(rootSegs, url);
    if !StartsWith(filePath, RootDir(rootSegs)) then PlainResponse(403, "Forbidden")
    else match read(filePath)
      case None => PlainResponse(404, "Not found")
      case Some(data) => Response(200, Some(ContentTypeFor(ExtName(filePath))), Bytes(data))
  }

  // ---------------------------------------------------------------------

  /** The directory path starts with `/` and ends in one only when it is
      `/` itself. */
  lemma {:induction false} RootDirShape(rootSegs: seq<string>)
    requires CleanSegments(rootSegs)
    ensures var root := RootDir(rootSegs);
      root != [] && root[0] == '/' && (root[|root| - 1] == '/' <==> rootSegs == [])
  {
    if rootSegs != [] {
      JoinEnds(rootSegs);
    }
  }

  /** The directory path resolves to its own segments. */
  lemma {:induction false} ResolveRoot(rootSegs: seq<string>)
    requires CleanSegments(rootSegs)
    ensures ResolveFrom([], Split(RootDir(rootSegs)), true) == rootSegs
  {
    SplitSlash(Join(rootSegs));
    if rootSegs == [] {
      assert RootDir(rootSegs) == "/" + "";
      assert Split("") == [""];
      assert Split(RootDir(rootSegs)) == ["", ""];
      assert ResolveFrom([], ["", ""], true) == ResolveFrom([], [""], true) == [];
    } else {
      assert ([""] + rootSegs)[1..] == rootSegs;
      SplitJoin(rootSegs);
      ResolveClean([], rootSegs, true);
    }
  }

  /** The directory path followed by `/q` resolves `q` on top of the
      directory's segments. */
  lemma {:induction false} ResolveRootThen(rootSegs: seq<string>, q: string)
    requires CleanSegments(rootSegs)
    ensures ResolveFrom([], Split(RootDir(rootSegs) + ("/" + q)), true)
         == ResolveFrom(rootSegs, Split(q), true)
  {
    var joined := RootDir(rootSegs) + ("/" + q);
    if rootSegs == [] {
      assert RootDir(rootSegs) == "/";
      SplitSlash("/" + q);
      SplitSlash(q);
      assert Split(joined) == ["", ""] + Split(q);
    } else {
      var after := Join(rootSegs) + ("/" + q);
      assert joined == "/" + after;
      SplitSlash(after);
      SplitJoinThen(rootSegs, q);
      assert Split(joined) == ([""] + rootSegs) + Split(q);
      ResolveAppend([], [""] + rootSegs, Split(q), true);
      assert ([""] + rootSegs)[1..] == rootSegs;
      ResolveClean([], rootSegs, true);
      assert ResolveFrom([], [""] + rootSegs, true) == ResolveFrom([], rootSegs, true) == rootSegs;
    }
  }

  /** `path.join(__dirname, q)` is the joined segments written under `/`. */
  lemma {:induction false} JoinedFile(rootSegs: seq<string>, q: string)
    requires CleanSegments(rootSegs)
    ensures JoinedSegments(rootSegs, q) == if q == "" then rootSegs else ResolveFrom(rootSegs, Split(q), true)
    ensures JoinPath(RootDir(rootSegs), q)
         == RenderAbsolute(JoinedSegments(rootSegs, q), q != "" && q[|q| - 1] == '/')
  {
    RootDirShape(rootSegs);
    if q == "" {
      ResolveRoot(rootSegs);
    } else {
      ResolveRootThen(rootSegs, q);
    }
  }

  /** Joining something free of `..`: the directory's segments come first,
      followed by clean ones, and the file path starts with the directory
      path. */
  lemma {:induction false} JoinNoParent(rootSegs: seq<string>, q: string)
    requires CleanSegments(rootSegs)
    requires q == "" || NoParent(Split(q))
    ensures var segs := JoinedSegments(rootSegs, q);
      rootSegs <= segs && CleanSegments(segs)
    ensures StartsWith(JoinPath(RootDir(rootSegs), q), RootDir(rootSegs))
  {
    JoinedFile(rootSegs, q);
    var segs := JoinedSegments(rootSegs, q);
    var root := RootDir(rootSegs);
    var file := JoinPath(root, q);
    if q != "" {
      ResolveNoParent(rootSegs, Split(q), true);
    }
    assert segs == rootSegs + segs[|rootSegs|..];
    if rootSegs != [] {
      var extra := segs[|rootSegs|..];
      if extra == [] {
        assert segs == rootSegs;
      } else {
        JoinAppend(rootSegs, extra);
      }
      assert file[..|root|] == root;
    }
  }

  /** Joining `..` climbs out of the directory, unless it is `/`. */
  lemma {:induction false} JoinParent(rootSegs: seq<string>)
    requires CleanSegments(rootSegs)
    ensures var segs := JoinedSegments(rootSegs, "..");
      CleanSegments(segs) && (rootSegs <= segs <==> rootSegs == [])
    ensures StartsWith(JoinPath(RootDir(rootSegs), ".."), RootDir(rootSegs)) <==> rootSegs == []
  {
    JoinedFile(rootSegs, "..");
    SplitWord("..");
    var segs := JoinedSegments(rootSegs, "..");
    assert segs == Step(rootSegs, "..", true);
    if rootSegs != [] {
      ParentShorter(rootSegs);
    }
  }

  /** The parent of a directory other than `/` has a shorter path. */
  lemma ParentShorter(rootSegs: seq<string>)
    requires CleanSegments(rootSegs) && rootSegs != []
    ensures |RenderAbsolute(rootSegs[..|rootSegs| - 1], false)| < |RootDir(rootSegs)|
  {
    var up := rootSegs[..|rootSegs| - 1];
    var last := rootSegs[|rootSegs| - 1];
    if up != [] {
      JoinAppend(up, [last]);
      assert up + [last] == rootSegs;
    } else {
      assert |last| > 0;
    }
  }

  /** What is left of a request path after normalising and stripping is `..`
      or free of `..` segments. */
  lemma SafeRelativeCases(url: string)
    ensures var q := SafeRelative(url); q == ".." || NoParent(Split(q))
  {
    var n := Normalize(RequestPath(url));
    NormalizeShape(RequestPath(url));
    StripShape(n);
    StrippedCases(StripParents(n));
  }

  /** The string-prefix guard of `serveStaticFile` passes exactly when the
      resolved file lies, segment by segment, inside the server's directory;
      it fails exactly when stripping left `..` and the directory is not `/`;
      and the resolved segments never hold `.`, `..` or an empty name. */
  lemma {:induction false} GuardIsContainment(rootSegs: seq<string>, url: string)
    requires CleanSegments(rootSegs)
    ensures CleanSegments(ResolvedSegments(rootSegs, url))
    ensures InsideRoot(rootSegs, url) <==> rootSegs <= ResolvedSegments(rootSegs, url)
    ensures !InsideRoot(rootSegs, url) <==> |rootSegs| > 0 && SafeRelative(url) == ".."
  {
    var q := SafeRelative(url);
    SafeRelativeCases(url);
    if q == ".." {
      JoinParent(rootSegs);
    } else {
      JoinNoParent(rootSegs, q);
    }
  }

  /** The request is refused with 403 exactly when stripping leaves `..`
      and the server's directory is not `/` itself. */
  lemma ForbiddenExactly(rootSegs: seq<string>, url: string, read: string -> Option<seq<byte>>)
    requires CleanSegments(rootSegs)
    ensures ServeStatic(rootSegs, url, read).status == 403
        <==> |rootSegs| > 0 && SafeRelative(url) == ".."
  {
    GuardIsContainment(rootSegs, url);
  }

  /** What `serveStaticFile` can answer: file bytes only with 200, only for
      a file inside the directory that `read` found; a plain body otherwise,
      `Forbidden` with 403 and `Not found` with 404. */
  lemma ServeStaticOutcomes(rootSegs: seq<string>, url: string, read: string -> Option<seq<byte>>)
    requires CleanSegments(rootSegs)
    ensures var r := ServeStatic(rootSegs, url, read);
      var file := FilePath(rootSegs, url);
      && r.status in {200, 403, 404}
      && (r.status == 200 <==> InsideRoot(rootSegs, url) && read(file).Some?)
      && (r.status == 200 ==>
            && rootSegs <= ResolvedSegments(rootSegs, url)
            && r.body == Bytes(read(file).value)
            && r.contentType == Some(ContentTypeFor(ExtName(file))))
      && (r.status == 403 ==> r.body == Text("Forbidden") && r.contentType.None?)
      && (r.status == 404 ==> r.body == Text("Not found") && r.contentType.None?)
  {
    var file := FilePath(rootSegs, url);
    GuardIsContainment(rootSegs, url);
    if !InsideRoot(rootSegs, url) {
      assert ServeStatic(rootSegs, url, read) == PlainResponse(403, "Forbidden");
    } else if read(file).None? {
      assert ServeStatic(rootSegs, url, read) == PlainResponse(404, "Not found");
    } else {
      assert ServeStatic(rootSegs, url, read)
        == Response(200, Some(ContentTypeFor(ExtName(file))), Bytes(read(file).value));
    }
  }

  /** The file `/` is answered with. */
  const IndexName: string := "index.html"

  /** A file named after the first slash keeps that name through the
      normalisation and the strip. */
  lemma {:induction false} NamedRelative(name: string)
    requires CleanSegment(name)
    ensures SafeRelative("/" + name) == "/" + name
  {
    var url := "/" + name;
    SplitAbsolute([name]);
    assert Join([name]) == name;
    assert ResolveFrom([], ["", name], true) == [name] by {
      assert Step([], "", true) == [];
      ResolveClean([], [name], true);
    }
    assert url[|url| - 1] == name[|name| - 1];
    assert Normalize(url) == "/" + (name + "");
    assert name + "" == name;
  }

  /** Any number of `..` in front of clean segments is dropped by the
      normalisation. */
  lemma {:induction false} TraversalRelative(ups: seq<string>, rest: seq<string>)
    requires CleanSegments(rest) && |rest| > 0
    requires forall i :: 0 <= i < |ups| ==> ups[i] == ".."
    ensures SafeRelative("/" + Join(ups + rest)) == "/" + Join(rest)
  {
    var path := ups + rest;
    var url := "/" + Join(path);
    assert NoSlashes(path) by {
      assert forall i :: |ups| <= i < |path| ==> path[i] == rest[i - |ups|];
    }
    assert path[|path| - 1] == rest[|rest| - 1];
    JoinEnds(path);
    SplitAbsolute(path);
    assert ([""] + path)[1..] == path;
    ResolveAppend([], ups, rest, true);
    ResolveParentsAtTop(ups);
    ResolveClean([], rest, true);
    assert ResolveFrom([], Split(url), true) == rest;
    var q := "/" + Join(rest);
    assert Normalize(url) == "/" + (Join(rest) + "");
    assert Join(rest) + "" == Join(rest);
    assert RequestPath(url) == url;
  }

  /** An absolute path of clean segments is joined onto the server's
      directory segment by segment. */
  lemma {:induction false} JoinClean(rootSegs: seq<string>, rest: seq<string>)
    requires CleanSegments(rootSegs) && CleanSegments(rest) && |rest| > 0
    ensures JoinedSegments(rootSegs, "/" + Join(rest)) == rootSegs + rest
    ensures JoinPath(RootDir(rootSegs), "/" + Join(rest)) == "/" + Join(rootSegs + rest)
  {
    var q := "/" + Join(rest);
    JoinedFile(rootSegs, q);
    SplitAbsolute(rest);
    assert ([""] + rest)[1..] == rest;
    ResolveClean(rootSegs, rest, true);
    JoinEnds(rest);
    assert q[|q| - 1] == Join(rest)[|Join(rest)| - 1];
    assert Join(rootSegs + rest) + "" == Join(rootSegs + rest);
  }

  /** However many `..` a request puts in front of a path, it resolves to
      that path inside the server's directory: `/../../etc/passwd` is
      answered from `etc/passwd` under it. */
  lemma {:induction false} TraversalStaysInside(rootSegs: seq<string>, ups: seq<string>, rest: seq<string>)
    requires CleanSegments(rootSegs) && CleanSegments(rest) && |rest| > 0
    requires forall i :: 0 <= i < |ups| ==> ups[i] == ".."
    ensures var url := "/" + Join(ups + rest);
      && ResolvedSegments(rootSegs, url) == rootSegs + rest
      && FilePath(rootSegs, url) == "/" + Join(rootSegs + rest)
      && InsideRoot(rootSegs, url)
  {
    var url := "/" + Join(ups + rest);
    TraversalRelative(ups, rest);
    JoinClean(rootSegs, rest);
    GuardIsContainment(rootSegs, url);
  }

  /** A request path naming one file at the top resolves to that file in
      the server's directory, which passes the guard. */
  lemma {:induction false} NamedFile(rootSegs: seq<string>, url: string, name: string)
    requires CleanSegments(rootSegs) && CleanSegment(name) && RequestPath(url) == "/" + name
    ensures ResolvedSegments(rootSegs, url) == rootSegs + [name]
    ensures FilePath(rootSegs, url) == "/" + Join(rootSegs + [name])
    ensures InsideRoot(rootSegs, url)
  {
    NamedRelative(name);
    assert Join([name]) == name;
    JoinClean(rootSegs, [name]);
    GuardIsContainment(rootSegs, url);
  }

  /** `/` is answered from `index.html` in the server's directory. */
  lemma RootIndexFile(rootSegs: seq<string>)
    requires CleanSegments(rootSegs)
    ensures ResolvedSegments(rootSegs, "/") == rootSegs + [IndexName]
    ensures FilePath(rootSegs, "/") == "/" + Join(rootSegs + [IndexName])
    ensures InsideRoot(rootSegs, "/")
  {
    NamedFile(rootSegs, "/", IndexName);
  }

  /** A file called `index.html` has the extension `.html`. */
  lemma IndexExtension(dir: string)
    ensures ExtName(dir + ("/" + IndexName)) == ".html"
  {
    var name := IndexName;
    BaseNameAfterSlash(dir, name);
    assert name[5] == '.';
    assert forall k :: 5 < k < |name| ==> name[k] != '.';
    assert LastIndexOf(name, '.') == 5;
    assert name[5..] == ".html";
  }

  lemma {:induction false} IndexInRootExtension(rootSegs: seq<string>)
    requires CleanSegments(rootSegs)
    ensures ExtName("/" + Join(rootSegs + [IndexName])) == ".html"
  {
    var file := "/" + Join(rootSegs + [IndexName]);
    if rootSegs == [] {
      assert rootSegs + [IndexName] == [IndexName];
      assert file == "" + ("/" + IndexName);
      IndexExtension("");
    } else {
      JoinAppend(rootSegs, [IndexName]);
      assert file == ("/" + Join(rootSegs)) + ("/" + IndexName);
      IndexExtension("/" + Join(rootSegs));
    }
  }

  /** `/` serves `index.html` from the server's directory as HTML. */
  lemma {:induction false} RootDocument(rootSegs: seq<string>, read: string -> Option<seq<byte>>)
    requires CleanSegments(rootSegs)
    ensures read(FilePath(rootSegs, "/")).Some? ==>
      ServeStatic(rootSegs, "/", read)
        == Response(200, Some("text/html; charset=utf-8"), Bytes(read(FilePath(rootSegs, "/")).value))
  {
    RootIndexFile(rootSegs);
    IndexInRootExtension(rootSegs);
    ListedContentTypes();
  }

  /** A bare `..` escapes the normalisation, is not stripped, and is
      refused. */
  lemma ParentIsForbidden(rootSegs: seq<string>, read: string -> Option<seq<byte>>)
    requires CleanSegments(rootSegs) && |rootSegs| > 0
    ensures ServeStatic(rootSegs, "..", read) == PlainResponse(403, "Forbidden")
  {
    SplitWord("..");
    assert Normalize("..") == "..";
    assert SafeRelative("..") == "..";
    ForbiddenExactly(rootSegs, "..", read);
  }
}
