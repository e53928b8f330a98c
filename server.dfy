/** handle_request of webserver.c: parse the received bytes, and on a 200
    resolve the request path under the root, look the file up and send it;
    on anything else send the parser's status alone.

    The file system is abstracted as a map from the path handle_request
    opens to the bytes of that file; a path the map lacks is a file fopen
    cannot open. */
module Server {
  import opened Types
  import opened Parser
  import opened ParserProperties
  import opened Resolver
  import opened Serializer

  /** What handle_request passes to send_response. */
  datatype Outcome = Outcome(
    httpMethod: Method,
    response: Response,
    body: Option<string>,
    contentType: Option<string>)

  /** The method send_response receives when the parser returned before
      setting one (the 501 path reads request.method uninitialised). The
      model fixes it; BodilessIsStatusLine shows that the bytes sent do not
      depend on it. */
  const UnsetMethod: Method := Get

  /** The decisions of handle_request for the bytes `buf`. */
  function Handle(ws: Webserver, buf: string, files: map<string, string>): Outcome
  {
    var p := Parse(buf);
    var m := if p.request.httpMethod.Some? then p.request.httpMethod.value else UnsetMethod;
    if p.response.statusCode == 200 then
      ParseShape(buf);
      var requestPath := RequestPath(p.request.path.value);
      var path := ResolvePath(ws, requestPath);
      if path !in files then Outcome(m, NotFound, None, None)
      else Outcome(m, p.response, Some(files[path]), GetContentType(requestPath))
    else Outcome(m, p.response, None, None)
  }

  /** The bytes handle_request sends when every write succeeds. */
  function Reply(ws: Webserver, buf: string, files: map<string, string>): string
  {
    var o := Handle(ws, buf, files);
    Message(o.httpMethod, o.response, o.body, o.contentType)
  }

  /** handle_request: parse, build the path, look the file up, send. The
      configuration names are C strings, as webserver_new receives them. */
  method HandleRequest(ws: Webserver, buf: string, files: map<string, string>, failAt: Option<nat>)
    returns (wire: string, ok: bool)
    requires CStrings(ws)
    ensures var o := Handle(ws, buf, files);
      Sent(wire, ok) == Transmit(Writes(o.httpMethod, o.response, o.body, o.contentType), failAt)
  {
    var response, request := ParseRequest(buf);
    var m := if request.httpMethod.Some? then request.httpMethod.value else UnsetMethod;
    if response.statusCode == 200 {
      ParseShape(buf);
      var requestPath := RequestPath(request.path.value);
      var path := BuildPath(ws, requestPath);
      if path !in files {
        wire, ok := SendResponse(m, NotFound, None, None, failAt);
        return;
      }
      var body := files[path];
      var contentType := GetContentType(requestPath);
      wire, ok := SendResponse(m, response, Some(body), contentType, failAt);
    } else {
      wire, ok := SendResponse(m, response, None, None, failAt);
    }
  }

  /** The outcomes of a request: a body exactly on 200, and then the bytes
      of the resolved file; 404 exactly when the parser accepted the request
      but the resolved file is missing; otherwise the parser's error status;
      a content type only on 200; and the parser's method whenever it set
      one. */
  lemma HandleOutcomes(ws: Webserver, buf: string, files: map<string, string>)
    ensures var o := Handle(ws, buf, files);
      var p := Parse(buf);
      (o.body.Some? <==> o.response == Ok)
      && (o.contentType.Some? ==> o.response == Ok)
      && (p.request.httpMethod.Some? ==> o.httpMethod == p.request.httpMethod.value)
      && (p.response != Ok ==> o.response == p.response)
      && (p.response == Ok ==>
            p.request.path.Some?
            && (o.response == NotFound <==> FilePath(ws, p.request.path.value) !in files)
            && (o.response == Ok ==> o.body == Some(files[FilePath(ws, p.request.path.value)])))
      && (o.response == Ok || o.response == NotFound || o.response == BadRequest
          || o.response == NotImplemented || o.response == VersionNotSupported)
  {
    ParseShape(buf);
  }

  /** Every response but a 200 with a file is the status line alone: the
      parser's errors and the 404 send no header line and no blank line. */
  lemma ErrorsAreStatusLineOnly(ws: Webserver, buf: string, files: map<string, string>)
    requires Handle(ws, buf, files).response != Ok
    ensures Reply(ws, buf, files) == StatusLine(Handle(ws, buf, files).response)
  {
    HandleOutcomes(ws, buf, files);
    var o := Handle(ws, buf, files);
    BodilessIsStatusLine(o.httpMethod, o.response);
  }

  /** The 404 status line as it appears on the wire. */
  lemma NotFoundLine()
    ensures StatusLine(NotFound) == "HTTP/1.1 404 Not Found\r\n"
  {
    assert Decimal(4) == "4";
    assert Decimal(40) == "40";
    assert Decimal(404) == "404";
  }

  /** A request the parser accepts for a file that is not there is answered
      with exactly the 404 status line. */
  lemma MissingFileIsNotFound(ws: Webserver, buf: string, files: map<string, string>)
    requires Parse(buf).response == Ok
    requires FilePath(ws, Parse(buf).request.path.value) !in files
    ensures Reply(ws, buf, files) == "HTTP/1.1 404 Not Found\r\n"
  {
    HandleOutcomes(ws, buf, files);
    ErrorsAreStatusLineOnly(ws, buf, files);
    NotFoundLine();
  }

  /** A well-formed request line for a file that is there is answered with
      the 200 status line, the content type of the request path, the length
      of the file, the blank line and the file's bytes; a HEAD request with
      the same status line and the same Content-Length line, and nothing
      else. What follows the request line, header lines or none, does not
      matter. */
  lemma ServesFile(ws: Webserver, m: Method, target: string, version: string,
                   rest: string, files: map<string, string>)
    requires target != [] && ' ' !in target
    requires '\r' !in version && '\0' !in version
    requires FilePath(ws, target) in files && files[FilePath(ws, target)] != []
    ensures var buf := RequestLine(m, target, version, rest);
      var file := files[FilePath(ws, target)];
      Reply(ws, buf, files)
      == if m == Get then
           StatusLine(Ok) + TypePart(Get, GetContentType(RequestPath(target)))
           + ContentLengthLine(|file|) + Crlf + file
         else StatusLine(Ok) + ContentLengthLine(|file|)
  {
    var buf := RequestLine(m, target, version, rest);
    RequestLineAccepted(m, target, version, rest);
    ServesFileAt(ws, m, target, buf, files);
  }

  /** The same for a buffer the parser accepts with method `m` and `target`. */
  lemma ServesFileAt(ws: Webserver, m: Method, target: string, buf: string, files: map<string, string>)
    requires Parse(buf).response == Ok
    requires Parse(buf).request.httpMethod == Some(m) && Parse(buf).request.path == Some(target)
    requires FilePath(ws, target) in files && files[FilePath(ws, target)] != []
    ensures var file := files[FilePath(ws, target)];
      Reply(ws, buf, files)
      == if m == Get then
           StatusLine(Ok) + TypePart(Get, GetContentType(RequestPath(target)))
           + ContentLengthLine(|file|) + Crlf + file
         else StatusLine(Ok) + ContentLengthLine(|file|)
  {
    var file := files[FilePath(ws, target)];
    var ct := GetContentType(RequestPath(target));
    assert Handle(ws, buf, files) == Outcome(m, Ok, Some(file), ct);
    if m == Get {
      BodyFramed(Ok, file, ct);
    } else {
      HeadIsGetWithoutEntity(Ok, Some(file), ct);
    }
  }

  /** The configuration main.c passes: served from "public/", with
      "index.html" for the root. */
  const MainConfig: Webserver := Webserver("public/", "index.html")

  /** The configuration main.c passes is accepted and kept, and its names
      are C strings. */
  lemma MainConfigAccepted()
    ensures WebserverNew("public/", "index.html") == Some(MainConfig)
    ensures CStrings(MainConfig)
  {
  }

  /** Resolution with that configuration: "/" opens the root file. */
  lemma MainConfigRoot()
    ensures FilePath(MainConfig, "/") == "public/index.html"
  {
    EndsInSeparatorIsLastByte(MainConfig.rootDir + MainConfig.rootFile);
    FilePathOfRoot(MainConfig);
  }

  /** A file name is looked up in the root. */
  lemma MainConfigFile()
    ensures FilePath(MainConfig, "/style.css") == "public/style.css"
  {
    var name := "style.css";
    assert [Separator] + name == "/style.css";
    assert name[|name| - 1] == 's';
    FilePathOfName(MainConfig, name);
    assert MainConfig.rootDir + name == "public/style.css";
  }

  /** A trailing slash is cut off: "/sub/" opens "public/sub". */
  lemma MainConfigDirectory()
    ensures FilePath(MainConfig, "/sub/") == "public/sub"
  {
    assert [Separator] + "sub" + [Separator] == "/sub/";
    FilePathOfDirectory(MainConfig, "sub");
  }

  /** The content type follows the request path, not the file opened: "/"
      opens the same file as "/" followed by root_file, but only the second
      request gets the type of root_file's extension; the first gets none. */
  lemma RootHasNoContentType(ws: Webserver)
    requires ws.rootFile != [] && '\0' !in ws.rootFile && !EndsInSeparator(ws.rootFile)
    ensures FilePath(ws, [Separator]) == FilePath(ws, [Separator] + ws.rootFile)
    ensures GetContentType(RequestPath([Separator])) == None
    ensures GetContentType(RequestPath([Separator] + ws.rootFile)) == GetContentType(ws.rootFile)
  {
    assert EndsInSeparator(ws.rootDir + ws.rootFile) == EndsInSeparator(ws.rootFile);
    FilePathOfRoot(ws);
    FilePathOfName(ws, ws.rootFile);
    RequestPathDropsOne([Separator]);
    RequestPathDropsOne([Separator] + ws.rootFile);
    assert ([Separator] + ws.rootFile)[1..] == ws.rootFile;
  }

  /** main.c's root file has a known extension: with that configuration
      "/index.html" is sent as text/html, while "/", which opens the same
      file, is sent without a type. */
  lemma MainConfigRootType()
    ensures GetContentType("index.html") == Some("text/html")
  {
    LastIndexOfIs("index.html", '.', 5);
    assert "index.html"[5..] == ".html";
  }
}
