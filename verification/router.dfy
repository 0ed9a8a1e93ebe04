/**
 * server.cpp: route() and serveStaticFile(), and respond() from the parsed
 * request to the reply. The files a GET can read are given as a map from
 * path to contents; a path missing from the map is a file that cannot be
 * opened.
 */
module Router {
  import opened Text
  import opened Responses
  import opened Request
  import opened Upload
  import Utils
  import Config

  /** What route() does with a request. */
  datatype Action =
    | ServeStatic(path: string)   // serveStaticFile(path)
    | HandleUpload                // handlePostRequest
    | RejectPath(uri: string)     // notFound(uri)
    | RejectMethod                // methodNotAllowed

  /** The file a GET reads: ROOT + FIRST_PAGE for "/", otherwise ROOT + uri as it came. */
  function StaticPath(uri: string): (path: string)
    ensures |Config.Root| <= |path| && path[..|Config.Root|] == Config.Root
    ensures uri != "/" ==> path[|Config.Root|..] == uri
    ensures uri == "/" ==> path[|Config.Root|..] == Config.FirstPage
  {
    Config.Root + (if uri == "/" then Config.FirstPage else uri)
  }

  /**
   * route: GET serves a file, POST to exactly "/uploads" goes to the upload
   * handler, any other POST is a 404 for the uri, every other method a 405.
   */
  function Route(verb: string, uri: string): (a: Action)
    ensures a.ServeStatic? <==> verb == "GET"
    ensures a.ServeStatic? ==> |Config.Root| <= |a.path| && a.path[..|Config.Root|] == Config.Root
    ensures a.HandleUpload? <==> verb == "POST" && uri == UploadsUri
    ensures a.RejectPath? <==> verb == "POST" && uri != UploadsUri
    ensures a.RejectPath? ==> a.uri == uri
    ensures a.RejectMethod? <==> verb != "GET" && verb != "POST"
  {
    if verb == "GET" then ServeStatic(StaticPath(uri))
    else if verb == "POST" then
      if uri == UploadsUri then HandleUpload else RejectPath(uri)
    else RejectMethod
  }

  /** The part of a static path below the document root. */
  function UriOfPath(path: string): string
    requires |Config.Root| <= |path|
  {
    path[|Config.Root|..]
  }

  /** Any uri but "/" is appended to the root verbatim: no decoding, no normalisation. */
  lemma {:induction false} StaticPathKeepsUri(uri: string)
    requires uri != "/"
    ensures var a := Route("GET", uri);
            a.ServeStatic? && UriOfPath(a.path) == uri
  {
    assert StaticPath(uri)[|Config.Root|..] == uri;
  }

  /** "/" is served from the first page. */
  lemma {:induction false} RootUriServesFirstPage()
    ensures var a := Route("GET", "/");
            a.ServeStatic? && UriOfPath(a.path) == Config.FirstPage
  {
    assert StaticPath("/")[|Config.Root|..] == Config.FirstPage;
  }

  /** The MIME table of serveStaticFile. */
  function MimeType(ext: string): (m: string)
    ensures m == "image/gif" <==> ext == "gif"
    ensures m == "text/html" <==> ext == "html"
    ensures m == "text/css" <==> ext == "css"
    ensures m == "image/jpeg" <==> ext == "jpg" || ext == "jpeg"
    ensures m == "text/plain" <==> ext != "gif" && ext != "html" && ext != "css" && ext != "jpg" && ext != "jpeg"
  {
    if ext == "gif" then "image/gif"
    else if ext == "html" then "text/html"
    else if ext == "css" then "text/css"
    else if ext == "jpg" || ext == "jpeg" then "image/jpeg"
    else "text/plain"
  }

  /** The Content-Type of a served file, from the extension of its path. */
  function ContentTypeFor(path: string): (m: string)
    ensures '.' !in path ==> m == "text/plain"
    ensures m == "text/html" <==> Utils.GetExtension(path) == "html"
  {
    MimeType(Utils.GetExtension(path))
  }

  /** serveStaticFile: the file's bytes as a 200 with the type of its extension, or a 404 naming the path. */
  function ServeStaticFile(path: string, files: map<string, string>): (r: Reply)
    ensures r.Ok? <==> path in files
    ensures r.Ok? ==> r.content == files[path] && r.contentType == MimeType(Utils.GetExtension(path))
    ensures !r.Ok? ==> r == NotFound(path)
  {
    if path in files then Ok(files[path], ContentTypeFor(path)) else NotFound(path)
  }

  /** A file that can be read is sent whole, as the body, under the type its extension names. */
  lemma {:induction false} ServedFileIsBody(path: string, files: map<string, string>)
    requires path in files
    ensures var r := ServeStaticFile(path, files);
            r.Ok? && BodyOf(r) == files[path] && ContentTypeOf(r) == ContentTypeFor(path)
            && Render(r)[|Render(r)| - |files[path]|..] == files[path]
  {
  }

  /** A file that cannot be read gives a 404 whose text names the full path, not the uri. */
  lemma {:induction false} MissingFileNamesPath(path: string, files: map<string, string>)
    requires path !in files
    ensures var r := ServeStaticFile(path, files);
            r == NotFound(path) && |NotFoundBody(path)| <= |Render(r)|
            && OccursAt(Render(r), path, |Render(r)| - |NotFoundBody(path)| + |NotFoundPrefix|)
  {
    NotFoundEchoesUri(Render(ServeStaticFile(path, files)), path);
  }

  /** The document root holds no '.', so the extension of a static path is the uri's own. */
  lemma {:induction false} ExtensionIgnoresRoot(uri: string)
    ensures Utils.GetExtension(Config.Root + uri) == Utils.GetExtension(uri)
  {
    var ext := Utils.GetExtension(uri);
    if '.' in uri {
      var pre := uri[..|uri| - |ext| - 1];
      assert Config.Root + uri == (Config.Root + pre) + "." + ext;
      Utils.ExtensionOfJoin(Config.Root + pre, ext);
    } else {
      RootHasNoDot();
      assert '.' !in Config.Root + uri;
    }
  }

  lemma {:induction false} RootHasNoDot()
    ensures '.' !in Config.Root
  {
    var r := Config.Root;
    assert forall k :: 0 <= k < |r| ==> r[k] != '.';
  }

  /** The first page is served as HTML. */
  lemma {:induction false} FirstPageIsHtml()
    ensures ContentTypeFor(StaticPath("/")) == "text/html"
  {
    assert StaticPath("/") == Config.Root + Config.FirstPage;
    ExtensionIgnoresRoot(Config.FirstPage);
    FirstPageExtension();
  }

  lemma {:induction false} FirstPageExtension()
    ensures Utils.GetExtension(Config.FirstPage) == "html"
  {
    assert Config.FirstPage == "/start" + "." + "html";
    Utils.ExtensionOfJoin("/start", "html");
  }

  /** route() given the request that respond() parsed. */
  function Dispatch(req: Request, files: map<string, string>, unwritable: set<string>): (o: Outcome)
    ensures req.verb == "GET" ==> o.writes == [] && (o.reply.Ok? <==> StaticPath(req.uri) in files)
    ensures req.verb == "POST" && req.uri != UploadsUri ==> o == Outcome(NotFound(req.uri), [])
    ensures req.verb != "GET" && req.verb != "POST" ==> o == Outcome(MethodNotAllowed, [])
    ensures o.writes != [] ==> req.verb == "POST" && req.uri == UploadsUri
  {
    match Route(req.verb, req.uri)
    case ServeStatic(path) => Outcome(ServeStaticFile(path, files), [])
    case HandleUpload => HandlePost(req.uri, req.body, req.headers, unwritable)
    case RejectPath(uri) => Outcome(NotFound(uri), [])
    case RejectMethod => Outcome(MethodNotAllowed, [])
  }

  /** How a connection handled by respond() ends. */
  datatype Handled =
    | Handled(outcome: Outcome)   // a reply is sent after the writes
    | Terminated                  // an uncaught exception: no reply, no writes
    | UndefinedBehaviour          // tellg() reported -1 and the body copy is undefined

  /** respond(): parse the request, then reply by itself or through route(). */
  function Respond(recv: Received, extra: ExtraRead, files: map<string, string>, unwritable: set<string>): (h: Handled)
    ensures recv.RecvError? ==> h == Handled(Outcome(InternalError, []))
    ensures h == Terminated <==> Parse(recv, extra) == Aborted
    ensures h == UndefinedBehaviour <==> Parse(recv, extra) == Undefined
    ensures h.Handled? && h.outcome.writes != [] ==>
              Parse(recv, extra).Parsed? && Parse(recv, extra).request.verb == "POST"
              && Parse(recv, extra).request.uri == UploadsUri
  {
    match Parse(recv, extra)
    case Parsed(req) => Handled(Dispatch(req, files, unwritable))
    case Answered(reply) => Handled(Outcome(reply, []))
    case Aborted => Terminated
    case Undefined => UndefinedBehaviour
  }

  /** The uri route() hands to the upload handler is already normalised. */
  lemma {:induction false} UploadsUriIsNormal(uri: string)
    requires uri == UploadsUri
    ensures NormalizeUri(uri) == uri
  {
    UploadsHasNoBlankEnds(uri);
    LowerUploads(uri);
  }

  /** "/UPLOADS" normalises to "/uploads". */
  lemma {:induction false} CapitalUploadsIsNormalised(uri: string)
    requires uri == "/UPLOADS"
    ensures NormalizeUri(uri) == UploadsUri
  {
    UploadsHasNoBlankEnds(uri);
    LowerUploads(uri);
  }

  lemma {:induction false} UploadsHasNoBlankEnds(s: string)
    requires s == "/UPLOADS" || s == "/uploads"
    ensures Trim(s) == s
  {
    TrimKeeps(s);
  }

  lemma {:induction false} LowerUploads(s: string)
    requires s == "/UPLOADS" || s == "/uploads"
    ensures ToLower(s) == "/uploads"
  {
    var t := "/uploads";
    forall k | 0 <= k < |s|
      ensures LowerChar(s[k]) == t[k]
    {
      LowerUploadsAt(s, k);
    }
  }

  lemma {:induction false} LowerUploadsAt(s: string, k: nat)
    requires s == "/UPLOADS" || s == "/uploads"
    requires k < |s|
    ensures LowerChar(s[k]) == "/uploads"[k]
  {
    if k == 0 {
    } else if k == 1 {
    } else if k == 2 {
    } else if k == 3 {
    } else if k == 4 {
    } else if k == 5 {
    } else if k == 6 {
    } else {
    }
  }

  /**
   * route() passes on only the exact uri "/uploads", which normalising
   * leaves as it is: the 404 branch of handlePostRequest is never taken.
   */
  lemma {:induction false} RoutedUploadIsSaved(body: string, headers: map<string, string>,
                                              files: map<string, string>, unwritable: set<string>)
    ensures Dispatch(Request("POST", UploadsUri, headers, body), files, unwritable)
            == SaveUpload(RequestContentType(headers), body, unwritable)
  {
    UploadsUriIsNormal(UploadsUri);
  }

  /** A POST to "/UPLOADS" is a 404 from route(), although the upload handler would take it. */
  lemma {:induction false} CapitalUploadsIs404(body: string, headers: map<string, string>,
                                              files: map<string, string>, unwritable: set<string>)
    ensures NormalizeUri("/UPLOADS") == UploadsUri
    ensures Dispatch(Request("POST", "/UPLOADS", headers, body), files, unwritable) == Outcome(NotFound("/UPLOADS"), [])
  {
    CapitalUploadsIsNormalised("/UPLOADS");
    CapitalUploadsRejected(body, headers, files, unwritable);
  }

  lemma {:induction false} CapitalUploadsRejected(body: string, headers: map<string, string>,
                                                 files: map<string, string>, unwritable: set<string>)
    ensures Dispatch(Request("POST", "/UPLOADS", headers, body), files, unwritable) == Outcome(NotFound("/UPLOADS"), [])
  {
    assert "/UPLOADS"[1] != UploadsUri[1];
  }

  // ---------------------------------------------------------------------------
  // Requests as a client writes them

  /** A client's GET of "/" receives the first page as HTML, or a 404 naming its full path. */
  lemma {:induction false} GetRootServesFirstPage(prot: string, hs: seq<(string, string)>, body: string,
                                                 extra: ExtraRead, files: map<string, string>, unwritable: set<string>)
    requires WellFormedHead("GET", "/", prot, hs)
    ensures var path := Config.Root + Config.FirstPage;
            Respond(Received(Head("GET", "/", prot, hs) + body), extra, files, unwritable)
            == Handled(Outcome(if path in files then Ok(files[path], "text/html") else NotFound(path), []))
  {
    ParseNonPost("GET", "/", prot, hs, body, extra);
    FirstPageIsHtml();
  }

  /** A client's GET of any other uri reads ROOT + uri, typed by the uri's own extension. */
  lemma {:induction false} GetServesUri(uri: string, prot: string, hs: seq<(string, string)>, body: string,
                                       extra: ExtraRead, files: map<string, string>, unwritable: set<string>)
    requires WellFormedHead("GET", uri, prot, hs) && uri != "/"
    ensures var path := Config.Root + uri;
            Respond(Received(Head("GET", uri, prot, hs) + body), extra, files, unwritable)
            == Handled(Outcome(if path in files then Ok(files[path], MimeType(Utils.GetExtension(uri)))
                               else NotFound(path), []))
  {
    ParseNonPost("GET", uri, prot, hs, body, extra);
    ExtensionIgnoresRoot(uri);
  }

  /** Any method but GET and POST is answered with 405 and writes nothing. */
  lemma {:induction false} OtherMethodIs405(verb: string, uri: string, prot: string, hs: seq<(string, string)>,
                                           body: string, extra: ExtraRead, files: map<string, string>,
                                           unwritable: set<string>)
    requires WellFormedHead(verb, uri, prot, hs) && verb != "GET" && verb != "POST"
    ensures Respond(Received(Head(verb, uri, prot, hs) + body), extra, files, unwritable)
            == Handled(Outcome(MethodNotAllowed, []))
  {
    ParseNonPost(verb, uri, prot, hs, body, extra);
  }

  /**
   * A client's POST whose last Content-Length header (line `i`) gives the
   * number of body bytes sent is parsed with exactly that body.
   */
  lemma {:induction false} ClientPostParsed(uri: string, prot: string, hs: seq<(string, string)>, i: nat, body: string,
                                           extra: ExtraRead)
    requires WellFormedHead("POST", uri, prot, hs) && body != [] && |body| < ULongLimit
    requires LastContentLength(hs, i, |body|)
    ensures Parse(Received(Head("POST", uri, prot, hs) + body), extra)
            == Parsed(Request("POST", uri, FoldHeaders(map[], hs), body))
  {
    ContentLengthReadBack(hs, i, |body|);
    ParsePost(uri, prot, hs, body, extra);
  }

  /** Such a POST to "/uploads" is handled by the upload handler with the whole body. */
  lemma {:induction false} ClientUpload(prot: string, hs: seq<(string, string)>, i: nat, body: string, extra: ExtraRead,
                                       files: map<string, string>, unwritable: set<string>)
    requires WellFormedHead("POST", UploadsUri, prot, hs) && body != [] && |body| < ULongLimit
    requires LastContentLength(hs, i, |body|)
    ensures Respond(Received(Head("POST", UploadsUri, prot, hs) + body), extra, files, unwritable)
            == Handled(SaveUpload(RequestContentType(FoldHeaders(map[], hs)), body, unwritable))
  {
    ClientPostParsed(UploadsUri, prot, hs, i, body, extra);
    RoutedUploadIsSaved(body, FoldHeaders(map[], hs), files, unwritable);
  }

  /** Such a POST to any other uri is a 404 naming that uri, and nothing is written. */
  lemma {:induction false} PostElsewhereIs404(uri: string, prot: string, hs: seq<(string, string)>, i: nat, body: string,
                                             extra: ExtraRead, files: map<string, string>, unwritable: set<string>)
    requires WellFormedHead("POST", uri, prot, hs) && uri != UploadsUri && body != [] && |body| < ULongLimit
    requires LastContentLength(hs, i, |body|)
    ensures Respond(Received(Head("POST", uri, prot, hs) + body), extra, files, unwritable)
            == Handled(Outcome(NotFound(uri), []))
  {
    ClientPostParsed(uri, prot, hs, i, body, extra);
  }
}
