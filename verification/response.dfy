/**
 * `Response` from src/response.rs: a status line, an optional content type,
 * a file name and the file's bytes, and the two wire formats built from them.
 * The file read done by `Response::new` is a lookup in a given file store.
 */
module Responses {
  import opened Wrappers
  import opened Utf8
  import opened Decimal
  import opened Wire

  /** What `fs::read` can see: a readable file's bytes under its name; a name absent here fails to read. */
  type Files = map<string, seq<Byte>>

  /** The content type `file_response` writes when none is stored. */
  const DEFAULT_CONTENT_TYPE: string := "application/octet-stream"

  datatype Response = Response(statusLine: string, contentType: Option<string>, filename: string, contents: seq<Byte>)
  {
    /** `len`: the number of bytes of the file. */
    function Len(): (n: nat)
      ensures n == |contents|
    {
      |contents|
    }

    /** The value of the `Content-Type` header of the attachment format. */
    function ContentTypeOrDefault(): (t: string)
      ensures contentType.Some? ==> t == contentType.value
      ensures contentType.None? ==> t == "application/octet-stream"
    {
      match contentType
      case None => DEFAULT_CONTENT_TYPE
      case Some(c) => c
    }

    /** Headers of the inline format, in the order written. */
    function SimpleHeaders(): seq<Header> {
      [Header("Content-Length", NatToDecimal(Len()))]
    }

    /** Headers of the attachment format, in the order written. */
    function FileHeaders(): seq<Header> {
      [ Header("Connection", "keep-alive"),
        Header("Content-Length", NatToDecimal(Len())),
        Header("Content-Type", ContentTypeOrDefault()),
        Header("content-disposition", "attachment; filename*=" + filename) ]
    }

    /**
     * `simple_response`: the status line, `Content-Length`, a blank line and
     * the file as text. `None` is the panic of `from_utf8(..).unwrap()` on a
     * file that is not UTF-8.
     */
    function SimpleResponse(): (r: Option<seq<Byte>>)
      ensures r.Some? <==> IsUtf8(contents)
      ensures r.Some? ==> r.value == Frame(statusLine, SimpleHeaders(), contents)
      ensures r.Some? ==> |r.value| >= Len() && r.value[|r.value| - Len()..] == contents
    {
      DecodeSucceedsIff(contents);
      DecodeSound(contents);
      match Decode(contents)
      case None => None
      case Some(content) =>
        var text := statusLine + "\r\nContent-Length: " + NatToDecimal(Len()) + "\r\n\r\n" + content;
        SimpleLayout(statusLine, NatToDecimal(Len()), content);
        EncodeAppend(JoinCrLf([statusLine] + HeaderLines(SimpleHeaders())) + "\r\n\r\n", content);
        Some(Encode(text))
    }

    /**
     * `file_response`: the status line, `Connection`, `Content-Length`,
     * `Content-Type` and `content-disposition` headers, a blank line, then the
     * file's bytes as they are.
     */
    function FileResponse(): (r: seq<Byte>)
      ensures r == Frame(statusLine, FileHeaders(), contents)
      ensures |r| >= Len() && r[|r| - Len()..] == contents
    {
      var head := statusLine + "\r\nConnection: keep-alive\r\nContent-Length: " + NatToDecimal(Len())
        + "\r\nContent-Type: " + ContentTypeOrDefault()
        + "\r\ncontent-disposition: attachment; filename*=" + filename + "\r\n\r\n";
      FileLayout(statusLine, NatToDecimal(Len()), ContentTypeOrDefault(), filename);
      Encode(head) + contents
    }
  }

  /** `Response::new`: the fields as given and the bytes of the named file; `None` when the file cannot be read. */
  function New(statusLine: string, filename: string, contentType: Option<string>, files: Files): (r: Option<Response>)
    ensures r.Some? <==> filename in files
    ensures r.Some? ==> r.value.statusLine == statusLine && r.value.filename == filename
    ensures r.Some? ==> r.value.contentType == contentType && r.value.contents == files[filename]
  {
    if filename in files then Some(Response(statusLine, contentType, filename, files[filename])) else None
  }

  /** A response whose text fields hold no carriage return, so its head cannot end early. */
  predicate HeadFieldsClean(r: Response) {
    '\r' !in r.statusLine && '\r' !in r.filename && (r.contentType.Some? ==> '\r' !in r.contentType.value)
  }

  /**
   * The inline format is well framed: a client finds the status line, one
   * `Content-Length` header, and after the first blank line exactly the
   * file's bytes, as many as the header declares.
   */
  lemma SimpleResponseFraming(r: Response)
    requires '\r' !in r.statusLine
    requires r.SimpleResponse().Some?
    ensures ReadMessage(r.SimpleResponse().value).Some?
    ensures var m := ReadMessage(r.SimpleResponse().value).value;
      && m.statusLine == r.statusLine
      && Names(m.headers) == ["Content-Length"]
      && m.body == r.contents
      && DeclaredLength(m) == Some(r.Len())
      && WellFramed(m)
  {
    var hs := r.SimpleHeaders();
    SimpleHeadWellFormed(r);
    ReadFrame(r.statusLine, hs, r.contents);
    ReadFrameWellFramed(r.statusLine, hs, r.contents);
  }

  lemma SimpleHeadWellFormed(r: Response)
    requires '\r' !in r.statusLine
    ensures HeadWellFormed(r.statusLine, r.SimpleHeaders())
  {
    assert forall c :: c in NatToDecimal(r.Len()) ==> IsDigit(c);
  }

  /**
   * The attachment format is well framed: a client reads `Connection`,
   * `Content-Length`, `Content-Type` and `content-disposition` in that
   * order, the declared length is the number of bytes after the first blank
   * line, and those bytes are the file's, unchanged.
   */
  lemma FileResponseFraming(r: Response)
    requires HeadFieldsClean(r)
    ensures ReadMessage(r.FileResponse()).Some?
    ensures var m := ReadMessage(r.FileResponse()).value;
      && m.statusLine == r.statusLine
      && Names(m.headers) == ["Connection", "Content-Length", "Content-Type", "content-disposition"]
      && Lookup(m.headers, "Connection") == Some("keep-alive")
      && (r.contentType.Some? ==> Lookup(m.headers, "Content-Type") == Some(r.contentType.value))
      && (r.contentType.None? ==> Lookup(m.headers, "Content-Type") == Some("application/octet-stream"))
      && Lookup(m.headers, "content-disposition") == Some("attachment; filename*=" + r.filename)
      && m.body == r.contents
      && DeclaredLength(m) == Some(r.Len())
      && WellFramed(m)
  {
    var hs := r.FileHeaders();
    FileHeadWellFormed(r);
    ReadFrame(r.statusLine, hs, r.contents);
    ReadFrameWellFramed(r.statusLine, hs, r.contents);
    var m := Message(r.statusLine, hs, r.contents);
    assert ReadMessage(r.FileResponse()) == Some(m);
    assert DeclaredLength(m) == Some(r.Len());
    FileHeaderValues(r);
  }

  lemma FileHeadWellFormed(r: Response)
    requires HeadFieldsClean(r)
    ensures HeadWellFormed(r.statusLine, r.FileHeaders())
  {
    var hs := r.FileHeaders();
    FileLiteralsClean();
    DispositionLiteralsClean();
    assert '\r' !in NatToDecimal(r.Len()) by {
      assert forall c :: c in NatToDecimal(r.Len()) ==> IsDigit(c);
    }
    assert '\r' !in hs[3].value;
    assert forall h :: h in hs ==> h == hs[0] || h == hs[1] || h == hs[2] || h == hs[3];
  }

  /** None of the first three fixed header names holds a colon or a carriage return, nor does `keep-alive`. */
  lemma FileLiteralsClean()
    ensures ':' !in "Connection" && '\r' !in "Connection" && '\r' !in "keep-alive"
    ensures ':' !in "Content-Length" && '\r' !in "Content-Length"
    ensures ':' !in "Content-Type" && '\r' !in "Content-Type"
  {
  }

  /** Nor does the `content-disposition` name or the fixed start of its value. */
  lemma DispositionLiteralsClean()
    ensures ':' !in "content-disposition" && '\r' !in "content-disposition" && '\r' !in "attachment; filename*="
  {
  }

  /** The attachment headers, looked up by name. */
  lemma FileHeaderValues(r: Response)
    ensures Names(r.FileHeaders()) == ["Connection", "Content-Length", "Content-Type", "content-disposition"]
    ensures Lookup(r.FileHeaders(), "Connection") == Some("keep-alive")
    ensures Lookup(r.FileHeaders(), "Content-Type") == Some(r.ContentTypeOrDefault())
    ensures Lookup(r.FileHeaders(), "content-disposition") == Some("attachment; filename*=" + r.filename)
  {
    var hs := r.FileHeaders();
    assert Names(hs) == ["Connection", "Content-Length", "Content-Type", "content-disposition"];
    var t3 := [hs[3]];
    var t2 := [hs[2]] + t3;
    var t1 := [hs[1]] + t2;
    assert hs == [hs[0]] + t1 && t1[1..] == t2 && t2[1..] == t3 && t3[1..] == [];
    assert Lookup(t3, "content-disposition") == Some(hs[3].value);
    assert Lookup(t2, "content-disposition") == Some(hs[3].value);
    assert Lookup(t1, "content-disposition") == Some(hs[3].value);
    assert Lookup(t2, "Content-Type") == Some(hs[2].value);
    assert Lookup(t1, "Content-Type") == Some(hs[2].value);
  }

  /** The `format!` string of `simple_response` is a framed head followed by the text. */
  lemma SimpleLayout(statusLine: string, length: string, content: string)
    ensures statusLine + "\r\nContent-Length: " + length + "\r\n\r\n" + content
         == JoinCrLf([statusLine] + HeaderLines([Header("Content-Length", length)])) + "\r\n\r\n" + content
  {
    var lines := [statusLine] + HeaderLines([Header("Content-Length", length)]);
    assert lines == [statusLine, "Content-Length" + ": " + length];
    assert JoinCrLf(lines) == statusLine + "\r\n" + ("Content-Length" + ": " + length);
  }

  /** The `format!` string of `file_response` is a framed head with its four headers in order. */
  lemma FileLayout(statusLine: string, length: string, contentType: string, filename: string)
    ensures statusLine + "\r\nConnection: keep-alive\r\nContent-Length: " + length
        + "\r\nContent-Type: " + contentType
        + "\r\ncontent-disposition: attachment; filename*=" + filename + "\r\n\r\n"
         == JoinCrLf([statusLine] + HeaderLines(
              [ Header("Connection", "keep-alive"),
                Header("Content-Length", length),
                Header("Content-Type", contentType),
                Header("content-disposition", "attachment; filename*=" + filename) ])) + "\r\n\r\n"
  {
    var hs := [ Header("Connection", "keep-alive"),
                Header("Content-Length", length),
                Header("Content-Type", contentType),
                Header("content-disposition", "attachment; filename*=" + filename) ];
    var lines := HeaderLines(hs);
    assert lines == [lines[0], lines[1], lines[2], lines[3]];
    assert [statusLine] + lines == [statusLine, lines[0], lines[1], lines[2], lines[3]];
    JoinFive(statusLine, lines[0], lines[1], lines[2], lines[3]);
    FileText(statusLine, length, contentType, filename);
  }

  lemma FileText(statusLine: string, length: string, contentType: string, filename: string)
    ensures statusLine + "\r\nConnection: keep-alive\r\nContent-Length: " + length
        + "\r\nContent-Type: " + contentType
        + "\r\ncontent-disposition: attachment; filename*=" + filename + "\r\n\r\n"
         == statusLine + "\r\n" + ("Connection" + ": " + "keep-alive")
        + "\r\n" + ("Content-Length" + ": " + length)
        + "\r\n" + ("Content-Type" + ": " + contentType)
        + "\r\n" + ("content-disposition" + ": " + ("attachment; filename*=" + filename)) + "\r\n\r\n"
  {
    var l1 := "Connection" + ": " + "keep-alive";
    var l2 := "Content-Length" + ": " + length;
    var l3 := "Content-Type" + ": " + contentType;
    var l4 := "content-disposition" + ": " + ("attachment; filename*=" + filename);
    var t1 := statusLine + "\r\nConnection: keep-alive\r\nContent-Length: " + length;
    var t2 := t1 + "\r\nContent-Type: " + contentType;
    FirstTwoLines(statusLine, length);
    ContentTypeLine(t1, contentType);
    DispositionLine(t2, filename);
  }

  lemma ContentTypeLine(t: string, contentType: string)
    ensures t + "\r\nContent-Type: " + contentType == t + "\r\n" + ("Content-Type" + ": " + contentType)
  {
    assert "\r\nContent-Type: " == "\r\n" + "Content-Type" + ": ";
    NextLine(t, "Content-Type", contentType);
  }

  lemma DispositionLine(t: string, filename: string)
    ensures t + "\r\ncontent-disposition: attachment; filename*=" + filename
         == t + "\r\n" + ("content-disposition" + ": " + ("attachment; filename*=" + filename))
  {
    var sep := "\r\n" + "content-disposition" + ": ";
    DispositionPrefix();
    Regroup(t, sep, "attachment; filename*=", filename);
    NextLine(t, "content-disposition", "attachment; filename*=" + filename);
  }

  lemma DispositionPrefix()
    ensures "\r\ncontent-disposition: attachment; filename*=" == "\r\n" + "content-disposition" + ": " + "attachment; filename*="
  {
  }

  lemma Regroup(t: string, a: string, b: string, c: string)
    ensures t + (a + b) + c == t + a + (b + c)
  {
  }

  lemma FirstTwoLines(statusLine: string, length: string)
    ensures statusLine + "\r\nConnection: keep-alive\r\nContent-Length: " + length
         == statusLine + "\r\n" + ("Connection" + ": " + "keep-alive") + "\r\n" + ("Content-Length" + ": " + length)
  {
    SplitAfterConnection(statusLine, length);
    ConnectionLine();
    NextLine(statusLine + "\r\nConnection: keep-alive", "Content-Length", length);
    NextLine(statusLine, "Connection", "keep-alive");
  }

  lemma SplitAfterConnection(statusLine: string, length: string)
    ensures statusLine + "\r\nConnection: keep-alive\r\nContent-Length: " + length
         == statusLine + "\r\nConnection: keep-alive" + ("\r\n" + "Content-Length" + ": ") + length
  {
  }

  lemma ConnectionLine()
    ensures "\r\nConnection: keep-alive" == "\r\n" + "Connection" + ": " + "keep-alive"
  {
  }

  lemma NextLine(t: string, name: string, value: string)
    ensures t + ("\r\n" + name + ": ") + value == t + "\r\n" + (name + ": " + value)
  {
  }

  lemma JoinFive(a: string, b: string, c: string, d: string, e: string)
    ensures JoinCrLf([a, b, c, d, e]) == a + "\r\n" + b + "\r\n" + c + "\r\n" + d + "\r\n" + e
  {
    assert [d, e][1..] == [e];
    assert JoinCrLf([d, e]) == d + "\r\n" + e;
    assert [c, d, e][1..] == [d, e];
    assert JoinCrLf([c, d, e]) == c + "\r\n" + JoinCrLf([d, e]);
    assert [b, c, d, e][1..] == [c, d, e];
    assert JoinCrLf([b, c, d, e]) == b + "\r\n" + JoinCrLf([c, d, e]);
    assert [a, b, c, d, e][1..] == [b, c, d, e];
    assert JoinCrLf([a, b, c, d, e]) == a + "\r\n" + JoinCrLf([b, c, d, e]);
  }
}
