/**
 * Routing and connection handling from src/main.rs: the fixed route table,
 * the request-line split, the lookup that yields a `Response`, and the
 * choice between the two wire formats. Socket reads and writes are left
 * out: the request line is an input and the bytes to write are the result.
 * The panics of the source are `Failure` results here.
 */
module Server {
  import opened Wrappers
  import opened Utf8
  import opened Decimal
  import opened Wire
  import opened Responses

  const HTTP_SUCCESS: string := "HTTP/1.1 200 OK"
  const HTTP_NOT_FOUND: string := "HTTP/1.1 404 NOT FOUND"

  /** `HTTPFile`: a file name and the content type to label it with. */
  type HttpFile = (string, string)

  /** `RouteMap`: a request path mapped to the handler that names its file. */
  type RouteMap = map<string, () -> HttpFile>

  /** Why handling a connection stops without writing a response (each a panic in the source). */
  datatype Fault =
    | MalformedRequest              // fewer than three tokens: `request_vec[2]` is out of bounds
    | ResourceUnreadable(name: string)  // `fs::read(..).unwrap()` in `Response::new`
    | NotText(name: string)         // `str::from_utf8(..).unwrap()` in `simple_response`

  // ---------------------------------------------------------------------
  // Route table

  /** `index`: the page served at `/`. */
  function Index(): (f: HttpFile)
    ensures f.0 == "hello.html" && f.1 == "text/html"
  {
    ("hello.html", "text/html")
  }

  /** `download`: the file served as an attachment at `/download`. */
  function Download(): (f: HttpFile)
    ensures f.0 == "test.mp3" && f.1 == "audio/mpeg"
  {
    ("test.mp3", "audio/mpeg")
  }

  /** The table `register_routes` builds: `/` and `/download` and nothing else. */
  ghost predicate IsDefaultRouteTable(routes: RouteMap) {
    && routes.Keys == {"/", "/download"}
    && routes["/"]() == ("hello.html", "text/html")
    && routes["/download"]() == ("test.mp3", "audio/mpeg")
  }

  /** `register_routes`: an empty table, then one insert per route. */
  method RegisterRoutes() returns (routes: RouteMap)
    ensures IsDefaultRouteTable(routes)
  {
    routes := map[];
    routes := routes["/" := Index];
    routes := routes["/download" := Download];
  }

  // ---------------------------------------------------------------------
  // Request line

  /** `char::is_whitespace`: the Unicode White_Space property. */
  function IsWhitespace(c: char): (b: bool)
    ensures c == ' ' || c == '\t' || c == '\n' || c == '\r' ==> b
    ensures '!' <= c <= '~' ==> !b
  {
    || ('\t' <= c <= '\r') || c == ' ' || c == '\U{85}' || c == '\U{A0}' || c == '\U{1680}'
    || ('\U{2000}' <= c <= '\U{200A}') || c == '\U{2028}' || c == '\U{2029}'
    || c == '\U{202F}' || c == '\U{205F}' || c == '\U{3000}'
  }

  /** A token of `split_whitespace`: non-empty, without whitespace. */
  predicate IsWord(t: string) {
    t != [] && forall c :: c in t ==> !IsWhitespace(c)
  }

  /** Length of the longest prefix without whitespace. */
  function WordEnd(s: string): (n: nat)
    ensures n <= |s|
    ensures forall i :: 0 <= i < n ==> !IsWhitespace(s[i])
    ensures n < |s| ==> IsWhitespace(s[n])
  {
    if s == [] || IsWhitespace(s[0]) then 0 else 1 + WordEnd(s[1..])
  }

  /** `str::split_whitespace`: the maximal runs of non-whitespace characters, in order. */
  function SplitWhitespace(s: string): (tokens: seq<string>)
    ensures forall i :: 0 <= i < |tokens| ==> IsWord(tokens[i])
    decreases |s|
  {
    if s == [] then []
    else if IsWhitespace(s[0]) then SplitWhitespace(s[1..])
    else
      var n := WordEnd(s);
      assert forall c :: c in s[..n] ==> !IsWhitespace(c);
      [s[..n]] + SplitWhitespace(s[n..])
  }

  /** A run of whitespace, possibly empty. */
  predicate AllWhitespace(s: string) {
    forall c :: c in s ==> IsWhitespace(c)
  }

  /**
   * Words with whitespace runs around and between them: `seps[0]` before
   * the first word, `seps[i]` after word `i - 1`.
   */
  function JoinWith(words: seq<string>, seps: seq<string>): string
    requires |seps| == |words| + 1
  {
    if words == [] then seps[0] else seps[0] + words[0] + JoinWith(words[1..], seps[1..])
  }

  // ---------------------------------------------------------------------
  // Routing and framing

  /**
   * `get_response_parts`: a registered path gives status 200 and its
   * handler's file and type; any other path gives status 404 and
   * `404.html` as `text/html`. The content type is always present.
   */
  function GetResponseParts(path: string, routes: RouteMap, files: Files): (r: Result<Response, Fault>)
    ensures path in routes ==>
      var (name, kind) := routes[path]();
      && (r.Success? <==> name in files)
      && (r.Success? ==> r.value == Response(HTTP_SUCCESS, Some(kind), name, files[name]))
      && (r.Failure? ==> r.error == ResourceUnreadable(name))
    ensures path !in routes ==>
      && (r.Success? <==> "404.html" in files)
      && (r.Success? ==> r.value == Response(HTTP_NOT_FOUND, Some("text/html"), "404.html", files["404.html"]))
      && (r.Failure? ==> r.error == ResourceUnreadable("404.html"))
    ensures r.Success? ==> r.value.contentType.Some?
  {
    var lookup := if path in routes then Some(routes[path]) else None;
    var (success, file) := match lookup
      case None => (false, ("404.html", "text/html"))
      case Some(route) => (true, route());
    var statusLine := if success then HTTP_SUCCESS else HTTP_NOT_FOUND;
    match New(statusLine, file.0, Some(file.1), files)
    case None => Failure(ResourceUnreadable(file.0))
    case Some(response) => Success(response)
  }

  /**
   * `handle_connection` without the socket: the bytes written for one request
   * line. The path is the second token; `/download` is framed as an
   * attachment and every other path as inline text.
   */
  function HandleConnection(requestLine: string, routes: RouteMap, files: Files): (r: Result<seq<Byte>, Fault>)
    ensures r == Failure(MalformedRequest) <==> |SplitWhitespace(requestLine)| < 3
  {
    var requestParts := SplitWhitespace(requestLine);
    if |requestParts| < 3 then Failure(MalformedRequest)
    else
      var path := requestParts[1];
      var response :- GetResponseParts(path, routes, files);
      if path == "/download" then Success(response.FileResponse())
      else
        match response.SimpleResponse()
        case None => Failure(NotText(response.filename))
        case Some(bytes) => Success(bytes)
  }

  /**
   * What happens to a request with a path: an unreadable file stops it,
   * `/download` is then always answered, and any other path is answered
   * exactly when its file is UTF-8 text.
   */
  lemma HandleConnectionOutcome(requestLine: string, routes: RouteMap, files: Files)
    requires |SplitWhitespace(requestLine)| >= 3
    ensures
      var path := SplitWhitespace(requestLine)[1];
      var name := if path in routes then routes[path]().0 else "404.html";
      var r := HandleConnection(requestLine, routes, files);
      && (name !in files ==> r == Failure(ResourceUnreadable(name)))
      && (name in files && path == "/download" ==> r.Success?)
      && (name in files && path != "/download" ==> (r.Success? <==> IsUtf8(files[name])))
      && (name in files && path != "/download" && r.Failure? ==> r.error == NotText(name))
  {
  }

  // ---------------------------------------------------------------------
  // Splitting the request line

  lemma WordEndOfWord(w: string, rest: string)
    requires IsWord(w) && rest != [] && IsWhitespace(rest[0])
    ensures WordEnd(w + rest) == |w|
  {
    var s := w + rest;
    assert forall i :: 0 <= i < |w| ==> s[i] == w[i] && w[i] in w;
    assert IsWhitespace(s[|w|]);
  }

  lemma WordEndOfLastWord(w: string)
    requires IsWord(w)
    ensures WordEnd(w) == |w|
  {
    assert forall i :: 0 <= i < |w| ==> w[i] in w;
  }

  /** A word followed by a space splits off as the first token. */
  lemma SplitAfterWord(w: string, rest: string)
    requires IsWord(w)
    ensures SplitWhitespace(w + " " + rest) == [w] + SplitWhitespace(rest)
  {
    var s := w + " " + rest;
    assert s == w + (" " + rest);
    WordEndOfWord(w, " " + rest);
    assert s[..|w|] == w;
    assert s[|w|..] == " " + rest;
    assert (" " + rest)[1..] == rest;
  }

  lemma SplitWord(w: string)
    requires IsWord(w)
    ensures SplitWhitespace(w) == [w]
  {
    WordEndOfLastWord(w);
    assert w[..|w|] == w;
  }

  /** Leading whitespace is skipped. */
  lemma {:induction false} SplitSkipsWhitespace(ws: string, s: string)
    requires AllWhitespace(ws)
    ensures SplitWhitespace(ws + s) == SplitWhitespace(s)
    decreases |ws|
  {
    if ws != [] {
      assert ws[0] in ws;
      assert AllWhitespace(ws[1..]) by {
        assert forall c :: c in ws[1..] ==> c in ws;
      }
      assert (ws + s)[1..] == ws[1..] + s;
      SplitSkipsWhitespace(ws[1..], s);
    } else {
      assert ws + s == s;
    }
  }

  /** A word ended by whitespace or by the end of the line is the next token. */
  lemma SplitWordThen(w: string, rest: string)
    requires IsWord(w) && (rest == [] || IsWhitespace(rest[0]))
    ensures SplitWhitespace(w + rest) == [w] + SplitWhitespace(rest)
  {
    if rest == [] {
      assert w + rest == w;
      SplitWord(w);
    } else {
      var s := w + rest;
      WordEndOfWord(w, rest);
      assert s[..|w|] == w;
      assert s[|w|..] == rest;
    }
  }

  /**
   * `split_whitespace` gives back exactly the words, in order, whatever the
   * whitespace before, between and after them, provided consecutive words
   * are separated by at least one whitespace character.
   */
  lemma {:induction false} SplitJoinWith(words: seq<string>, seps: seq<string>)
    requires |seps| == |words| + 1
    requires forall i :: 0 <= i < |words| ==> IsWord(words[i])
    requires forall i :: 0 <= i < |seps| ==> AllWhitespace(seps[i])
    requires forall i :: 0 < i < |words| ==> seps[i] != []
    ensures SplitWhitespace(JoinWith(words, seps)) == words
    decreases |words|
  {
    if words == [] {
      assert seps[0] + [] == seps[0];
      SplitSkipsWhitespace(seps[0], []);
    } else {
      var rest := JoinWith(words[1..], seps[1..]);
      SplitJoinWith(words[1..], seps[1..]);
      if rest != [] {
        if |words| == 1 {
          assert rest == seps[1];
          assert rest[0] in seps[1];
        } else {
          assert rest[0] == seps[1][0];
          assert rest[0] in seps[1];
        }
      }
      SplitWordThen(words[0], rest);
      assert JoinWith(words, seps) == seps[0] + (words[0] + rest);
      SplitSkipsWhitespace(seps[0], words[0] + rest);
      assert words == [words[0]] + words[1..];
    }
  }

  /**
   * A request line with any whitespace around and between its three parts
   * (repeated spaces, tabs, a trailing CR) still has the path as its second
   * token, and is not refused as malformed.
   */
  lemma RequestLineAnySpacing(lead: string, verb: string, gap1: string, path: string,
                              gap2: string, version: string, trail: string, routes: RouteMap, files: Files)
    requires IsWord(verb) && IsWord(path) && IsWord(version)
    requires AllWhitespace(lead) && AllWhitespace(gap1) && AllWhitespace(gap2) && AllWhitespace(trail)
    requires gap1 != [] && gap2 != []
    ensures SplitWhitespace(lead + verb + gap1 + path + gap2 + version + trail) == [verb, path, version]
    ensures HandleConnection(lead + verb + gap1 + path + gap2 + version + trail, routes, files) != Failure(MalformedRequest)
  {
    var words, seps := [verb, path, version], [lead, gap1, gap2, trail];
    JoinWithThree(lead, verb, gap1, path, gap2, version, trail);
    assert forall i :: 0 <= i < |seps| ==> AllWhitespace(seps[i]);
    assert forall i :: 0 <= i < |words| ==> IsWord(words[i]);
    SplitJoinWith(words, seps);
  }

  lemma JoinWithThree(lead: string, verb: string, gap1: string, path: string,
                      gap2: string, version: string, trail: string)
    ensures JoinWith([verb, path, version], [lead, gap1, gap2, trail])
         == lead + verb + gap1 + path + gap2 + version + trail
  {
    var last := JoinWith([version], [gap2, trail]);
    assert [version][1..] == [] && [gap2, trail][1..] == [trail];
    assert JoinWith([], [trail]) == trail;
    assert last == gap2 + version + trail;
    var mid := JoinWith([path, version], [gap1, gap2, trail]);
    assert [path, version][1..] == [version] && [gap1, gap2, trail][1..] == [gap2, trail];
    assert mid == gap1 + path + last;
    assert [verb, path, version][1..] == [path, version] && [lead, gap1, gap2, trail][1..] == [gap1, gap2, trail];
  }

  /** `METHOD SP PATH SP VERSION` splits into its three parts, so the path is the second token. */
  lemma RequestLineTokens(verb: string, path: string, version: string)
    requires IsWord(verb) && IsWord(path) && IsWord(version)
    ensures SplitWhitespace(verb + " " + path + " " + version) == [verb, path, version]
  {
    var words, seps := [verb, path, version], ["", " ", " ", ""];
    JoinWithThree("", verb, " ", path, " ", version, "");
    assert "" + verb + " " + path + " " + version + "" == verb + " " + path + " " + version;
    assert forall i :: 0 <= i < |seps| ==> AllWhitespace(seps[i]);
    assert forall i :: 0 <= i < |words| ==> IsWord(words[i]);
    SplitJoinWith(words, seps);
  }

  /** A request line of only two tokens is refused instead of indexing past the end. */
  lemma TwoTokensMalformed(verb: string, path: string, routes: RouteMap, files: Files)
    requires IsWord(verb) && IsWord(path)
    ensures HandleConnection(verb + " " + path, routes, files) == Failure(MalformedRequest)
  {
    SplitAfterWord(verb, path);
    SplitWord(path);
  }

  // ---------------------------------------------------------------------
  // Routing

  /** Lookup is by exact string: a path that is not literally `/` or `/download` is a 404. */
  lemma ExactMatchOnly(path: string, routes: RouteMap, files: Files)
    requires IsDefaultRouteTable(routes)
    requires path != "/" && path != "/download"
    requires "404.html" in files
    ensures GetResponseParts(path, routes, files).Success?
    ensures GetResponseParts(path, routes, files).value.statusLine == HTTP_NOT_FOUND
    ensures GetResponseParts(path, routes, files).value.filename == "404.html"
  {
  }

  /** Neither a query string nor a trailing slash is stripped before the lookup. */
  lemma DownloadVariantsMiss(routes: RouteMap, files: Files)
    requires IsDefaultRouteTable(routes)
    requires "404.html" in files
    ensures GetResponseParts("/download?x", routes, files).value.statusLine == HTTP_NOT_FOUND
    ensures GetResponseParts("/download/", routes, files).value.statusLine == HTTP_NOT_FOUND
  {
    ExactMatchOnly("/download?x", routes, files);
    ExactMatchOnly("/download/", routes, files);
  }

  // ---------------------------------------------------------------------
  // What the client receives

  /** Every handler names a file and a type without carriage returns. */
  ghost predicate RoutesClean(routes: RouteMap) {
    forall p :: p in routes ==> '\r' !in routes[p]().0 && '\r' !in routes[p]().1
  }

  /** The table `register_routes` builds names files and types without carriage returns. */
  lemma DefaultRoutesClean(routes: RouteMap)
    requires IsDefaultRouteTable(routes)
    ensures RoutesClean(routes)
  {
  }

  /** With the registered table, every request that is answered is well framed, its body the routed file. */
  lemma RegisteredRoutesFraming(requestLine: string, routes: RouteMap, files: Files)
    requires IsDefaultRouteTable(routes)
    requires HandleConnection(requestLine, routes, files).Success?
    ensures |SplitWhitespace(requestLine)| >= 3
    ensures
      var path := SplitWhitespace(requestLine)[1];
      var name := if path in routes then routes[path]().0 else "404.html";
      var m := ReadMessage(HandleConnection(requestLine, routes, files).value);
      m.Some? && WellFramed(m.value) && name in files && m.value.body == files[name]
  {
    DefaultRoutesClean(routes);
    HandleConnectionFraming(requestLine, routes, files);
  }

  lemma StatusLinesClean()
    ensures '\r' !in HTTP_SUCCESS && '\r' !in HTTP_NOT_FOUND
    ensures '\r' !in "404.html" && '\r' !in "text/html"
  {
  }

  /**
   * Every response the handler writes is well framed for the client: the
   * declared `Content-Length` is the number of bytes after the first blank
   * line, and those bytes are the routed file's. `/download` is an
   * attachment labelled with the route's type; every other path, 404
   * included, is inline text with `Content-Length` alone.
   */
  lemma HandleConnectionFraming(requestLine: string, routes: RouteMap, files: Files)
    requires RoutesClean(routes)
    requires HandleConnection(requestLine, routes, files).Success?
    ensures |SplitWhitespace(requestLine)| >= 3
    ensures
      var path := SplitWhitespace(requestLine)[1];
      var name := if path in routes then routes[path]().0 else "404.html";
      var kind := if path in routes then routes[path]().1 else "text/html";
      var m := ReadMessage(HandleConnection(requestLine, routes, files).value);
      && m.Some?
      && WellFramed(m.value)
      && m.value.statusLine == (if path in routes then HTTP_SUCCESS else HTTP_NOT_FOUND)
      && name in files && m.value.body == files[name]
      && (path == "/download" ==>
            && Names(m.value.headers) == ["Connection", "Content-Length", "Content-Type", "content-disposition"]
            && Lookup(m.value.headers, "Content-Type") == Some(kind)
            && Lookup(m.value.headers, "content-disposition") == Some("attachment; filename*=" + name))
      && (path != "/download" ==> Names(m.value.headers) == ["Content-Length"])
  {
    var path := SplitWhitespace(requestLine)[1];
    var response := GetResponseParts(path, routes, files).value;
    StatusLinesClean();
    assert HeadFieldsClean(response);
    if path == "/download" {
      FileResponseFraming(response);
    } else {
      SimpleResponseFraming(response);
    }
  }

  // ---------------------------------------------------------------------
  // The three request scenarios, with the table `register_routes` builds

  /** `GET / HTTP/1.1`: status 200, inline, the length and bytes of `hello.html`. */
  lemma ServeIndex(verb: string, version: string, routes: RouteMap, files: Files)
    requires IsDefaultRouteTable(routes)
    requires IsWord(verb) && IsWord(version)
    requires "hello.html" in files && IsUtf8(files["hello.html"])
    ensures HandleConnection(verb + " / " + version, routes, files)
         == Success(Frame(HTTP_SUCCESS, [Header("Content-Length", NatToDecimal(|files["hello.html"]|))], files["hello.html"]))
  {
    assert IsWord("/") by { assert forall c :: c in "/" ==> c == '/'; }
    assert verb + " / " + version == verb + " " + "/" + " " + version;
    RequestLineTokens(verb, "/", version);
  }

  /** `GET /download HTTP/1.1`: status 200, attachment of type `audio/mpeg` named `test.mp3`, its bytes unchanged. */
  lemma ServeDownload(verb: string, version: string, routes: RouteMap, files: Files)
    requires IsDefaultRouteTable(routes)
    requires IsWord(verb) && IsWord(version)
    requires "test.mp3" in files
    ensures HandleConnection(verb + " /download " + version, routes, files)
         == Success(Frame(HTTP_SUCCESS,
              [ Header("Connection", "keep-alive"),
                Header("Content-Length", NatToDecimal(|files["test.mp3"]|)),
                Header("Content-Type", "audio/mpeg"),
                Header("content-disposition", "attachment; filename*=test.mp3") ],
              files["test.mp3"]))
  {
    SplitDownloadLine(verb, version);
    DispositionOfTestMp3();
  }

  lemma SplitDownloadLine(verb: string, version: string)
    requires IsWord(verb) && IsWord(version)
    ensures SplitWhitespace(verb + " /download " + version) == [verb, "/download", version]
  {
    DownloadIsWord();
    assert verb + " /download " + version == verb + " " + "/download" + " " + version;
    RequestLineTokens(verb, "/download", version);
  }

  lemma DispositionOfTestMp3()
    ensures "attachment; filename*=" + "test.mp3" == "attachment; filename*=test.mp3"
  {
  }

  lemma DownloadIsWord()
    ensures IsWord("/download")
  {
  }

  /** A path with no route: status 404, inline, the bytes of `404.html`. */
  lemma ServeMissing(verb: string, path: string, version: string, routes: RouteMap, files: Files)
    requires IsDefaultRouteTable(routes)
    requires IsWord(verb) && IsWord(path) && IsWord(version)
    requires path != "/" && path != "/download"
    requires "404.html" in files && IsUtf8(files["404.html"])
    ensures HandleConnection(verb + " " + path + " " + version, routes, files)
         == Success(Frame(HTTP_NOT_FOUND, [Header("Content-Length", NatToDecimal(|files["404.html"]|))], files["404.html"]))
  {
    RequestLineTokens(verb, path, version);
  }
}
