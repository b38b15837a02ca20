/** Concrete cases of the parser, the serialisers and the router, matching the examples
    in the repository's tests. */
module Scenarios {
  import opened Results
  import opened Text
  import opened Numbers
  import opened Request
  import opened Response
  import opened Framing
  import opened Mux

  // ----- the request parser -----

  /** `"foo bar"` has one space in its only line, so it is rejected as a bad request line. */
  lemma FooBarIsBadRequestLine()
    ensures ParseSafe("foo bar")
    ensures ParseRequest("foo bar") == Failure(InvalidRequestLine)
    ensures ErrorMessage(InvalidRequestLine) == "invalid request line format"
  {
    FooBarLines();
    FooBarSpaces();
    ParseRequestLineError("foo bar");
  }

  /** `"foo bar"` is a single line. */
  lemma FooBarLines()
    ensures Split("foo bar", CRLF) == ["foo bar"]
  {
    CrFreeHasNoCrlf("foo bar");
    IndexOfNone("foo bar", CRLF);
  }

  /** `"foo bar"` has one space, so it splits into fewer than three parts. */
  lemma FooBarSpaces()
    ensures Count("foo bar", ' ') == 1 && |SplitN("foo bar", " ", 3)| < 3
  {
    assert Count("foo bar", ' ') == 1;
    SplitNCharCount("foo bar", ' ', 3);
  }

  const PostHeaders: map<string, string> := map["Host" := "example.com", "Content-Length" := "6"]

  /** The POST request with a six-byte body, its two headers written in either order and
      followed by any bytes at all, parses to its method, path, protocol, both headers and
      the body. */
  lemma PostWithBody(order: seq<string>, padding: string)
    requires Enumerates(order, PostHeaders.Keys)
    ensures ParseSafe(RequestText("POST", "/foo", "HTTP/1.1", PostHeaders, order, "foobar", padding))
    ensures ParseRequest(RequestText("POST", "/foo", "HTTP/1.1", PostHeaders, order, "foobar", padding))
         == Success(Request("POST", "/foo", "HTTP/1.1", PostHeaders, "foobar", map[]))
  {
    PostWritable();
    ParseRequestRoundTrip("POST", "/foo", "HTTP/1.1", PostHeaders, order, "foobar", padding);
  }

  /** The POST request can be written so that it reads back, and its length is the body's. */
  lemma PostWritable()
    ensures RequestWritable("POST", "/foo", "HTTP/1.1", PostHeaders)
    ensures "Content-Length" in PostHeaders && Atoi(PostHeaders["Content-Length"]) == Some(|"foobar"|)
  {
    SixReads();
    PostFieldsSafe();
  }

  lemma SixReads()
    ensures Atoi("6") == Some(6)
  {
  }

  lemma PostFieldsSafe()
    ensures FieldSafe("Host", "example.com") && FieldSafe("Content-Length", "6")
  {
    assert FieldSafe("Host", "example.com");
  }

  lemma EncodingPieces()
    ensures Split("foo, gzip , bar", ",") == ["foo", " gzip ", " bar"]
  {
    var tail := " gzip " + [','] + " bar";
    assert "foo, gzip , bar" == "foo" + [','] + tail;
    SplitAfterChar(" gzip ", ',', " bar");
    SplitWithout(" bar", ',');
    assert Split(tail, ",") == [" gzip ", " bar"];
    SplitAfterChar("foo", ',', tail);
  }

  lemma EncodingTrims()
    ensures TrimSpace("foo") == "foo" && TrimSpace(" gzip ") == "gzip" && TrimSpace(" bar") == "bar"
  {
    TrimTrimmed("foo", IsSpace);
    assert " gzip " == [' '] + "gzip" + [' '];
    TrimPadded(' ', "gzip", ' ', IsSpace);
    assert " bar" == [' '] + "bar";
    TrimAfterStripped(' ', "bar", IsSpace);
  }

  /** The encodings are the trimmed comma-separated pieces, one for one. */
  lemma EncodingsPieces(req: Request, value: string)
    requires "Accept-Encoding" in req.headers && req.headers["Accept-Encoding"] == value
    ensures |Encodings(req)| == |Split(value, ",")|
    ensures forall i :: 0 <= i < |Encodings(req)| ==> Encodings(req)[i] == TrimSpace(Split(value, ",")[i])
  {
  }

  lemma ThreeOf(r: seq<string>, a: string, b: string, c: string)
    requires |r| == 3 && r[0] == a && r[1] == b && r[2] == c
    ensures r == [a, b, c]
  {
  }

  /** `Accept-Encoding: foo, gzip , bar` lists three trimmed encodings. */
  lemma ThreeEncodings(req: Request)
    requires "Accept-Encoding" in req.headers && req.headers["Accept-Encoding"] == "foo, gzip , bar"
    ensures Encodings(req) == ["foo", "gzip", "bar"]
  {
    EncodingPieces();
    EncodingTrims();
    EncodingsPieces(req, "foo, gzip , bar");
    var r := Encodings(req);
    assert |r| == 3;
    assert r[0] == "foo" && r[1] == "gzip" && r[2] == "bar";
    ThreeOf(r, "foo", "gzip", "bar");
  }

  /** Without `Accept-Encoding` there are no encodings. */
  lemma NoEncodings(req: Request)
    requires "Accept-Encoding" !in req.headers
    ensures Encodings(req) == []
  {
  }

  // ----- the serialisers -----

  /** A 201 response with nothing else set. */
  lemma Created()
    ensures Bytes(RootHttp, Response("", 201, map[], ""), [])
         == "HTTP/1.1 201 Created" + "\r\n" + "Content-Length: 0" + "\r\n\r\n"
  {
  }

  /** 204 is not in the table, so its status line has no reason phrase. */
  lemma NoContent()
    ensures Bytes(RootHttp, Response("", 204, map[], ""), [])
         == "HTTP/1.1 204" + "\r\n" + "Content-Length: 0" + "\r\n\r\n"
  {
  }

  /** A 200 response with a thirteen-byte body. */
  lemma OkWithBody()
    ensures Bytes(RootHttp, Response("", 200, map[], "Hello, World!"), [])
         == "HTTP/1.1 200 OK" + "\r\n" + "Content-Length: 13" + "\r\n\r\n" + "Hello, World!"
  {
    var r := Response("", 200, map[], "Hello, World!");
    assert StatusLineText(RootHttp, r) == "HTTP/1.1 200 OK";
    assert Lines(FieldTexts(r.headers, [])) == "";
    ThirteenBytesLine();
    BytesParts(RootHttp, r, []);
  }

  /** The computed length line for the thirteen-byte body. */
  lemma ThirteenBytesLine()
    ensures LengthLines(RootHttp, Response("", 200, map[], "Hello, World!"))
         == "Content-Length: 13" + "\r\n\r\n"
  {
    assert IntToDecimal(13) == "13";
  }

  const JsonBody: string := "{\"message\":\"accepted\"}"

  /** A 202 response with one header and a JSON body. */
  lemma AcceptedJson()
    ensures Bytes(RootHttp, Response("", 202, map["Content-Type" := "application/json"], JsonBody), ["Content-Type"])
         == "HTTP/1.1 202" + "\r\n" + "Content-Type: application/json" + "\r\n"
          + "Content-Length: 22" + "\r\n\r\n" + JsonBody
  {
    var r := Response("", 202, map["Content-Type" := "application/json"], JsonBody);
    assert |r.body| == 22;
    assert IntToDecimal(22) == "22";
    assert StatusLineText(RootHttp, r) == "HTTP/1.1 202";
    var texts := FieldTexts(r.headers, ["Content-Type"]);
    assert |texts| == 1 && texts[0] == FieldText("Content-Type", "application/json");
    assert texts == [FieldText("Content-Type", "application/json")];
    assert Lines(texts) == "Content-Type: application/json" + "\r\n";
    assert LengthLines(RootHttp, r) == "Content-Length: 22" + "\r\n\r\n";
    BytesParts(RootHttp, r, ["Content-Type"]);
  }

  /** A fresh response is written as a status-0 response with an empty body. */
  lemma FreshResponse()
    ensures Bytes(RootHttp, NewResponse(), [])
         == "HTTP/1.1 0" + "\r\n" + "Content-Length: 0" + "\r\n\r\n"
  {
  }

  const CallerSet: Response := Response("", 200, map["Content-Length" := "5"], "hi")

  /** The single header line of `CallerSet`. */
  lemma CallerLine(order: seq<string>)
    requires order == ["Content-Length"]
    ensures Lines(FieldTexts(CallerSet.headers, order)) == "Content-Length: 5" + "\r\n"
  {
    var texts := FieldTexts(CallerSet.headers, order);
    assert |texts| == 1 && texts[0] == FieldText("Content-Length", "5");
    assert texts == [FieldText("Content-Length", "5")];
  }

  /** The caller's `Content-Length` is written verbatim and no second one is added in
      `http/response.go`. */
  lemma CallerLengthKept(order: seq<string>)
    requires order == ["Content-Length"]
    ensures Bytes(RootHttp, CallerSet, order)
         == "HTTP/1.1 200 OK" + "\r\n" + "Content-Length: 5" + "\r\n" + "\r\n" + "hi"
  {
    CallerLine(order);
    assert StatusLineText(RootHttp, CallerSet) == "HTTP/1.1 200 OK";
    assert LengthLines(RootHttp, CallerSet) == "\r\n";
    BytesParts(RootHttp, CallerSet, order);
  }

  /** `app/response.go` adds the computed length after the caller's own. */
  lemma CallerLengthDoubled(order: seq<string>)
    requires order == ["Content-Length"]
    ensures Bytes(AppMain, CallerSet, order)
         == "HTTP/1.1 200" + "\r\n" + "Content-Length: 5" + "\r\n"
          + "Content-Length: 2" + "\r\n\r\n" + "hi"
  {
    CallerLine(order);
    AddedLengthLine();
    assert StatusLineText(AppMain, CallerSet) == "HTTP/1.1 200";
    BytesParts(AppMain, CallerSet, order);
  }

  /** The computed length line `app/response.go` writes for the two-byte body. */
  lemma AddedLengthLine()
    ensures LengthLines(AppMain, CallerSet) == "Content-Length: 2" + "\r\n\r\n"
  {
    assert IntToDecimal(2) == "2";
  }

  // ----- the router -----

  /** The URL parser of a program in which every path parses. */
  function AllParse(path: string): Option<string> {
    None
  }

  /** A handler that leaves the response as it is. */
  function Noop(req: Request, resp: Response): Response {
    resp
  }

  /** A handler that sets status 200 and answers `File: ` followed by the `filename`
      parameter. */
  function ShowFile(req: Request, resp: Response): Response {
    resp.(statusCode := 200, body := "File: " + HeaderOf(req.params, "filename"))
  }

  const FilesPath: string := "/files/{filename}"
  const FilesRoute: string := "GET /files/{filename}"
  const FilesMux: Mux := Mux(map[FilesRoute := ShowFile])

  /** A path of two slash-free segments between slashes. */
  lemma TwoSegments(path: string, a: string, b: string)
    requires path == ['/'] + a + ['/'] + b
    requires |a| > 0 && |b| > 0 && '/' !in a && '/' !in b
    ensures Segments(path) == [a, b]
  {
    var inner := a + ['/'] + b;
    assert path == ['/'] + inner;
    InnerTrimmed(a, b);
    TrimAfterStripped('/', inner, IsSlash);
    assert Trim(path, IsSlash) == inner;
    SlashSplit(a, b);
  }

  lemma InnerTrimmed(a: string, b: string)
    requires |a| > 0 && |b| > 0 && '/' !in a && '/' !in b
    ensures Trimmed(a + ['/'] + b, IsSlash)
  {
    var inner := a + ['/'] + b;
    assert inner[0] == a[0] && inner[|inner| - 1] == b[|b| - 1];
  }

  lemma SlashSplit(a: string, b: string)
    requires '/' !in a && '/' !in b
    ensures Split(a + ['/'] + b, "/") == [a, b]
  {
    SplitAfterChar(a, '/', b);
    SplitWithout(b, '/');
  }

  lemma FilesRouteValid()
    ensures Parts(FilesRoute) == ["GET", FilesPath]
    ensures ValidateSafe(FilesRoute) && ValidatePattern(FilesRoute, AllParse).None?
  {
    assert FilesRoute == "GET" + " " + FilesPath;
    BuiltPattern("GET", FilesPath, AllParse);
  }

  lemma FilesSegments()
    ensures Segments(FilesPath) == ["files", "{filename}"]
  {
    assert FilesPath == ['/'] + "files" + ['/'] + "{filename}";
    TwoSegments(FilesPath, "files", "{filename}");
  }

  lemma TestFileSegments(path: string)
    requires path == "/files/test.txt"
    ensures Segments(path) == ["files", "test.txt"]
  {
    assert path == ['/'] + "files" + ['/'] + "test.txt";
    TwoSegments(path, "files", "test.txt");
  }

  /** Registering `GET /files/{filename}` on a new router succeeds. */
  lemma RegisterFiles()
    ensures ValidateSafe(FilesRoute)
    ensures HandleFunc(NewMux(), FilesRoute, ShowFile, AllParse) == Success(FilesMux)
    ensures Routable(FilesMux) && Enumerates([FilesRoute], FilesMux.handlers.Keys)
  {
    FilesRouteValid();
  }

  /** Registering the same pattern a second time is refused. */
  lemma RegisterFilesTwice()
    ensures ValidateSafe(FilesRoute)
    ensures HandleFunc(FilesMux, FilesRoute, ShowFile, AllParse)
         == Failure(DuplicatePattern("route pattern " + FilesRoute + " already exists"))
  {
    FilesRouteValid();
  }

  lemma BindFile()
    ensures BindSegments(["files", "{filename}"], ["files", "test.txt"], map[]) == Some(map["filename" := "test.txt"])
  {
    var ps := ["files", "{filename}"];
    assert IsPlaceholder(ps[1]) && PlaceholderName(ps[1]) == "filename";
    assert !IsPlaceholder(ps[0]);
  }

  lemma ExtractFile(req: Request)
    requires req.verb == "GET" && req.path == "/files/test.txt"
    ensures |Parts(FilesRoute)| >= 2
    ensures ExtractParams(req, FilesRoute) == Extracted(FilesRoute, map["filename" := "test.txt"])
  {
    FilesRouteValid();
    FilesSegments();
    TestFileSegments(req.path);
    BindFile();
    assert EqualFold("GET", req.verb);
  }

  /** `GET /files/test.txt` reaches the handler of `GET /files/{filename}` with
      `filename` bound to `test.txt`. */
  lemma FileParameter(req: Request)
    requires req.verb == "GET" && req.path == "/files/test.txt"
    ensures Routable(FilesMux) && Enumerates([FilesRoute], FilesMux.handlers.Keys)
    ensures FindHandler(FilesMux, [FilesRoute], req).pattern == FilesRoute
    ensures FindHandler(FilesMux, [FilesRoute], req).request.params == map["filename" := "test.txt"]
    ensures HandleRequest(FilesMux, [FilesRoute], req, NewResponse()).statusCode == 200
    ensures HandleRequest(FilesMux, [FilesRoute], req, NewResponse()).body == "File: test.txt"
  {
    RegisterFiles();
    ExtractFile(req);
    var found := FindHandler(FilesMux, [FilesRoute], req);
    assert found == Found(FilesRoute, ShowFile, req.(params := map["filename" := "test.txt"]));
    var after := Dispatch(FilesMux, [FilesRoute], req, NewResponse());
    assert after == ShowFile(found.request, NewResponse());
    assert HeaderOf(found.request.params, "filename") == "test.txt";
    ShowFileBody(found.request, NewResponse());
  }

  /** The handler's answer for `filename` bound to `test.txt`. */
  lemma ShowFileBody(req: Request, resp: Response)
    requires HeaderOf(req.params, "filename") == "test.txt"
    ensures ShowFile(req, resp).statusCode == 200 && ShowFile(req, resp).body == "File: test.txt"
  {
  }

  /** With no routes every request gets the 404 response. */
  lemma EmptyMuxNotFound(req: Request)
    ensures HandleRequest(NewMux(), [], req, NewResponse()).statusCode == 404
    ensures HandleRequest(NewMux(), [], req, NewResponse()).body == "Not found"
  {
  }

  const IndexRoute: string := "GET /index"
  const IndexMux: Mux := Mux(map[IndexRoute := Noop])

  lemma RegisterIndex()
    ensures ValidateSafe(IndexRoute)
    ensures Parts(IndexRoute) == ["GET", "/index"]
    ensures HandleFunc(NewMux(), IndexRoute, Noop, AllParse) == Success(IndexMux)
    ensures Routable(IndexMux) && Enumerates([IndexRoute], IndexMux.handlers.Keys)
  {
    assert IndexRoute == "GET" + " " + "/index";
    BuiltPattern("GET", "/index", AllParse);
  }

  lemma IndexSegments(path: string)
    requires path == "/index"
    ensures Segments(path) == ["index"]
  {
    assert path == ['/'] + "index";
    TrimAfterStripped('/', "index", IsSlash);
    SplitWithout("index", '/');
  }

  /** A handler that sets nothing yields status 200, and `Connection: close` on the
      request is copied to the response. */
  lemma DefaultsAfterHandler(req: Request)
    requires req.verb == "GET" && req.path == "/index"
    requires "Connection" in req.headers && req.headers["Connection"] == "close"
    ensures Routable(IndexMux) && Enumerates([IndexRoute], IndexMux.handlers.Keys)
    ensures HandleRequest(IndexMux, [IndexRoute], req, NewResponse()).statusCode == 200
    ensures HeaderOf(HandleRequest(IndexMux, [IndexRoute], req, NewResponse()).headers, "Connection") == "close"
  {
    RegisterIndex();
    IndexSegments(req.path);
    IndexSegments("/index");
    assert EqualFold("GET", req.verb);
    assert BindSegments(["index"], ["index"], map[]) == Some(map[]);
    assert ExtractParams(req, IndexRoute).pattern == IndexRoute;
    var after := Dispatch(IndexMux, [IndexRoute], req, NewResponse());
    assert after == NewResponse();
  }
}
