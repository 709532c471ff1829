/**
 * The response framing that the server's two formats share, and the reading
 * a client applies to it: the head runs to the first CRLF CRLF, is UTF-8
 * text split into lines at CRLF, the first line is the status line and the
 * others are `Name: value` headers; everything after the blank line is the
 * body. This reader is not part of the server; it is the partner against
 * which the server's output is proved well framed.
 */
module Wire {
  import opened Wrappers
  import opened Utf8
  import opened Decimal

  /** The four bytes CR LF CR LF that end a head. */
  const BLANK_LINE: seq<Byte> := [13, 10, 13, 10]

  datatype Header = Header(name: string, value: string)

  datatype Message = Message(statusLine: string, headers: seq<Header>, body: seq<Byte>)

  function HeaderLine(h: Header): string {
    h.name + ": " + h.value
  }

  function HeaderLines(hs: seq<Header>): (r: seq<string>)
    ensures |r| == |hs|
    ensures forall i :: 0 <= i < |hs| ==> r[i] == HeaderLine(hs[i])
  {
    if hs == [] then [] else [HeaderLine(hs[0])] + HeaderLines(hs[1..])
  }

  /** The lines joined with CRLF between consecutive ones. */
  function JoinCrLf(lines: seq<string>): string
    requires lines != []
  {
    if |lines| == 1 then lines[0] else lines[0] + "\r\n" + JoinCrLf(lines[1..])
  }

  /** The bytes of a response: the status line and header lines, each ended by CRLF, an empty line, the body. */
  function Frame(statusLine: string, headers: seq<Header>, body: seq<Byte>): seq<Byte> {
    Encode(JoinCrLf([statusLine] + HeaderLines(headers)) + "\r\n\r\n") + body
  }

  /** A header that reads back as itself: no colon in its name, no carriage return anywhere. */
  predicate HeaderWellFormed(h: Header) {
    ':' !in h.name && '\r' !in h.name && '\r' !in h.value
  }

  predicate HeadWellFormed(statusLine: string, headers: seq<Header>) {
    '\r' !in statusLine && forall h :: h in headers ==> HeaderWellFormed(h)
  }

  function Shift(o: Option<nat>, n: nat): Option<nat> {
    match o
    case None => None
    case Some(k) => Some(k + n)
  }

  /** A CR LF CR LF starts at position `j` of `b`. */
  predicate BlankAt(b: seq<Byte>, j: nat) {
    j + 4 <= |b| && b[j..j + 4] == BLANK_LINE
  }

  /** Index of the first CR LF CR LF in `b` (see `FindBlankLineFirst`). */
  function FindBlankLine(b: seq<Byte>): (r: Option<nat>)
    ensures r.Some? ==> r.value + 4 <= |b|
    decreases |b|
  {
    if |b| < 4 then None
    else if b[..4] == BLANK_LINE then Some(0)
    else Shift(FindBlankLine(b[1..]), 1)
  }

  /** The search finds a blank line, and the first one, exactly when there is one. */
  lemma {:induction false} FindBlankLineFirst(b: seq<Byte>)
    ensures FindBlankLine(b).Some? ==> BlankAt(b, FindBlankLine(b).value)
    ensures FindBlankLine(b).Some? ==> forall j: nat :: j < FindBlankLine(b).value ==> !BlankAt(b, j)
    ensures FindBlankLine(b).None? ==> forall j: nat :: !BlankAt(b, j)
    decreases |b|
  {
    if |b| >= 4 && b[..4] != BLANK_LINE {
      FindBlankLineFirst(b[1..]);
      forall j: nat | 1 <= j
        ensures BlankAt(b, j) <==> BlankAt(b[1..], j - 1)
      {
        if j + 4 <= |b| {
          assert b[j..j + 4] == b[1..][j - 1..j + 3];
        }
      }
    }
  }

  /** Splits text at every CR LF; the result always has at least one (possibly empty) line. */
  function SplitCrLf(s: string): (r: seq<string>)
    ensures |r| >= 1
    decreases |s|
  {
    if s == [] then [""]
    else if |s| >= 2 && s[0] == '\r' && s[1] == '\n' then [""] + SplitCrLf(s[2..])
    else
      var rest := SplitCrLf(s[1..]);
      [[s[0]] + rest[0]] + rest[1..]
  }

  /** Position of the first colon, or the length when there is none. */
  function IndexOfColon(s: string): (i: nat)
    ensures i <= |s| && (i < |s| ==> s[i] == ':') && ':' !in s[..i]
  {
    if s == [] then 0
    else if s[0] == ':' then 0
    else
      var i := IndexOfColon(s[1..]);
      assert s[..i + 1] == [s[0]] + s[1..][..i];
      i + 1
  }

  /** A header line `Name: value`, split at its first colon. */
  function ParseHeader(line: string): Option<Header> {
    var i := IndexOfColon(line);
    if i + 1 < |line| && line[i + 1] == ' ' then Some(Header(line[..i], line[i + 2..])) else None
  }

  function ParseHeaders(lines: seq<string>): Option<seq<Header>> {
    if lines == [] then Some([])
    else
      var h :- ParseHeader(lines[0]);
      var hs :- ParseHeaders(lines[1..]);
      Some([h] + hs)
  }

  /** How a client reads a response: head up to the first blank line, then the body. */
  function ReadMessage(b: seq<Byte>): Option<Message> {
    var k :- FindBlankLine(b);
    var head :- Decode(b[..k]);
    var lines := SplitCrLf(head);
    var headers :- ParseHeaders(lines[1..]);
    Some(Message(lines[0], headers, b[k + 4..]))
  }

  /** The names of the headers, in order. */
  function Names(headers: seq<Header>): (r: seq<string>)
    ensures |r| == |headers| && forall i :: 0 <= i < |headers| ==> r[i] == headers[i].name
  {
    if headers == [] then [] else [headers[0].name] + Names(headers[1..])
  }

  /** Value of the first header with the given name. */
  function Lookup(headers: seq<Header>, name: string): Option<string> {
    if headers == [] then None
    else if headers[0].name == name then Some(headers[0].value)
    else Lookup(headers[1..], name)
  }

  /** The body length a message declares in its `Content-Length` header. */
  function DeclaredLength(m: Message): Option<nat> {
    var v :- Lookup(m.headers, "Content-Length");
    ParseDecimal(v)
  }

  /** A message whose declared length is exactly the number of bytes after its blank line. */
  predicate WellFramed(m: Message) {
    DeclaredLength(m) == Some(|m.body|)
  }

  // ---------------------------------------------------------------------
  // Finding the blank line

  /** Bytes without a CR cannot hold a blank line, so the search skips them. */
  lemma {:induction false} FindAfterNoCr(x: seq<Byte>, y: seq<Byte>)
    requires 13 !in x
    ensures FindBlankLine(x + y) == Shift(FindBlankLine(y), |x|)
    decreases |x|
  {
    if x == [] {
      assert x + y == y;
      match FindBlankLine(y) {
        case None =>
        case Some(_) =>
      }
    } else {
      assert x[0] in x;
      assert forall c :: c in x[1..] ==> c in x;
      assert (x + y)[1..] == x[1..] + y;
      FindAfterNoCr(x[1..], y);
      if |x + y| >= 4 {
        assert (x + y)[..4][0] == x[0];
      }
    }
  }

  /** A CR LF followed by anything but a CR is not a blank line. */
  lemma FindAfterSeparator(y: seq<Byte>)
    requires y != [] && y[0] != 13
    ensures FindBlankLine([13, 10] + y) == Shift(FindBlankLine(y), 2)
  {
    var b := [13, 10] + y;
    FindAfterNoCr([10], y);
    assert b[1..] == [10] + y;
    if |b| >= 4 {
      assert b[..4][2] == y[0];
    }
    match FindBlankLine(y) {
      case None =>
      case Some(_) =>
    }
  }

  lemma EncodeCrLf()
    ensures Encode("\r\n") == [13, 10]
    ensures Encode("\r\n\r\n") == BLANK_LINE
  {
    EncodeAppend("\r\n", "\r\n");
  }

  lemma JoinFirst(lines: seq<string>)
    requires lines != [] && lines[0] != []
    ensures JoinCrLf(lines) != [] && JoinCrLf(lines)[0] == lines[0][0]
  {
  }

  lemma AppendAssoc(w: seq<Byte>, x: seq<Byte>, y: seq<Byte>, z: seq<Byte>)
    ensures w + x + y + z == w + (x + (y + z))
  {
  }

  lemma EncodeSeparated(p: string, more: string)
    ensures Encode(p + "\r\n" + more) == Encode(p) + [13, 10] + Encode(more)
  {
    EncodeAppend(p + "\r\n", more);
    EncodeAppend(p, "\r\n");
    EncodeCrLf();
  }

  /** The search passes over one line and the CR LF after it when the next line is not empty. */
  lemma FindPastLine(p: string, more: string, tail: seq<Byte>)
    requires '\r' !in p && more != [] && more[0] != '\r'
    ensures FindBlankLine(Encode(p + "\r\n" + more) + tail)
         == Shift(FindBlankLine(Encode(more) + tail), |Encode(p)| + 2)
  {
    var ep, em := Encode(p), Encode(more);
    EncodeSeparated(p, more);
    AppendAssoc(ep, [13, 10], em, tail);
    EncodeHead(more);
    EncodeNoCr(p);
    FindPastSeparator(ep, em + tail);
  }

  /** Bytes without a CR, then CR LF, then a byte other than CR: the search resumes after the CR LF. */
  lemma FindPastSeparator(x: seq<Byte>, y: seq<Byte>)
    requires 13 !in x && y != [] && y[0] != 13
    ensures FindBlankLine(x + ([13, 10] + y)) == Shift(FindBlankLine(y), |x| + 2)
  {
    FindAfterSeparator(y);
    FindAfterNoCr(x, [13, 10] + y);
    ShiftShift(FindBlankLine(y), 2, |x|);
  }

  lemma ShiftShift(o: Option<nat>, m: nat, n: nat)
    ensures Shift(Shift(o, m), n) == Shift(o, n + m)
  {
  }

  /** In a head whose lines hold no CR, the first blank line is the one that ends it. */
  lemma {:induction false} FindInHead(lines: seq<string>, rest: seq<Byte>)
    requires lines != []
    requires forall i :: 0 <= i < |lines| ==> '\r' !in lines[i]
    requires forall i :: 1 <= i < |lines| ==> lines[i] != []
    ensures FindBlankLine(Encode(JoinCrLf(lines)) + (BLANK_LINE + rest)) == Some(|Encode(JoinCrLf(lines))|)
    decreases |lines|
  {
    var tail := BLANK_LINE + rest;
    assert tail[..4] == BLANK_LINE;
    if |lines| == 1 {
      EncodeNoCr(lines[0]);
      FindAfterNoCr(Encode(lines[0]), tail);
    } else {
      var more := JoinCrLf(lines[1..]);
      FindInHead(lines[1..], rest);
      JoinFirst(lines[1..]);
      assert lines[1][0] in lines[1];
      FindPastLine(lines[0], more, tail);
      EncodeSeparated(lines[0], more);
    }
  }

  // ---------------------------------------------------------------------
  // Splitting the head into lines

  lemma {:induction false} SplitNoCr(a: string, t: string)
    requires '\r' !in a
    ensures SplitCrLf(a + "\r\n" + t) == [a] + SplitCrLf(t)
    ensures SplitCrLf(a) == [a]
    decreases |a|
  {
    if a == [] {
      assert a + "\r\n" + t == "\r\n" + t;
      assert ("\r\n" + t)[2..] == t;
    } else {
      assert a[0] in a;
      assert forall c :: c in a[1..] ==> c in a;
      SplitNoCr(a[1..], t);
      assert (a + "\r\n" + t)[1..] == a[1..] + "\r\n" + t;
      assert [a[0]] + a[1..] == a;
    }
  }

  lemma {:induction false} SplitJoin(lines: seq<string>)
    requires lines != []
    requires forall i :: 0 <= i < |lines| ==> '\r' !in lines[i]
    ensures SplitCrLf(JoinCrLf(lines)) == lines
    decreases |lines|
  {
    if |lines| == 1 {
      assert JoinCrLf(lines) == lines[0];
      SplitNoCr(lines[0], "");
    } else {
      var more := JoinCrLf(lines[1..]);
      assert JoinCrLf(lines) == lines[0] + "\r\n" + more;
      SplitNoCr(lines[0], more);
      SplitJoin(lines[1..]);
      assert lines == [lines[0]] + lines[1..];
    }
  }

  // ---------------------------------------------------------------------
  // Reading the header lines

  lemma ParseHeaderLine(h: Header)
    requires ':' !in h.name
    ensures ParseHeader(HeaderLine(h)) == Some(h)
  {
    var line := HeaderLine(h);
    var i := IndexOfColon(line);
    assert line[|h.name|] == ':';
    assert line[..i] == h.name;
    assert line[i + 2..] == h.value;
  }

  lemma {:induction false} ParseHeaderLines(hs: seq<Header>)
    requires forall h :: h in hs ==> HeaderWellFormed(h)
    ensures ParseHeaders(HeaderLines(hs)) == Some(hs)
    decreases |hs|
  {
    if hs != [] {
      assert hs[0] in hs;
      ParseHeaderLine(hs[0]);
      assert forall h :: h in hs[1..] ==> h in hs;
      ParseHeaderLines(hs[1..]);
      assert HeaderLines(hs)[1..] == HeaderLines(hs[1..]);
      assert [hs[0]] + hs[1..] == hs;
    }
  }

  // ---------------------------------------------------------------------
  // The round trip

  /** A client reads back exactly the status line, headers and body that were framed. */
  lemma ReadFrame(statusLine: string, headers: seq<Header>, body: seq<Byte>)
    requires HeadWellFormed(statusLine, headers)
    ensures ReadMessage(Frame(statusLine, headers, body)) == Some(Message(statusLine, headers, body))
  {
    var lines := [statusLine] + HeaderLines(headers);
    var head := JoinCrLf(lines);
    var eh := Encode(head);
    forall i | 0 <= i < |lines|
      ensures '\r' !in lines[i]
      ensures i >= 1 ==> lines[i] != []
    {
      if i >= 1 {
        assert headers[i - 1] in headers;
        assert lines[i] == headers[i - 1].name + ": " + headers[i - 1].value;
        assert lines[i][|headers[i - 1].name|] == ':';
      }
    }
    EncodeAppend(head, "\r\n\r\n");
    EncodeCrLf();
    var b := Frame(statusLine, headers, body);
    assert b == eh + (BLANK_LINE + body);
    FindInHead(lines, body);
    assert b[..|eh|] == eh;
    DecodeEncode(head);
    SplitJoin(lines);
    assert lines[1..] == HeaderLines(headers);
    ParseHeaderLines(headers);
    assert b[|eh| + 4..] == body;
  }

  /** When the framed headers declare the body's length, the message read back is well framed. */
  lemma ReadFrameWellFramed(statusLine: string, headers: seq<Header>, body: seq<Byte>)
    requires HeadWellFormed(statusLine, headers)
    requires Lookup(headers, "Content-Length") == Some(NatToDecimal(|body|))
    ensures ReadMessage(Frame(statusLine, headers, body)).Some?
    ensures WellFramed(ReadMessage(Frame(statusLine, headers, body)).value)
  {
    ReadFrame(statusLine, headers, body);
    ParseNatToDecimal(|body|);
  }
}
