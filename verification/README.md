# A tiny HTTP file server: routing and response framing

This project models the sequential core of a small Rust HTTP server in Dafny.
The server reads one request line per connection and takes its second
whitespace-separated token as the path. It looks the path up in a fixed
two-entry route table, loads the named file, and writes one of two response
formats:

- an inline text response: the status line, `Content-Length`, a blank line and
  the file as UTF-8 text;
- for `/download` only, an attachment response: the status line, then
  `Connection: keep-alive`, `Content-Length`, `Content-Type` and
  `content-disposition: attachment; filename*=<name>`, a blank line, and the
  file's bytes as they are.

The modules follow the program:

- `Server` (src/main.rs): `register_routes`, `index`, `download`,
  `get_response_parts` and the split-and-select part of `handle_connection`.
  - `register_routes` builds its `HashMap` by successive inserts, so it is a
    method.
  - Everything else there is a function.
- `Responses` (src/response.rs): the immutable `Response` value with `len`,
  `simple_response` and `file_response`, and `Response::new` with the file read
  replaced by a lookup in a given file store (`Files`).
  - `len` is `|contents|` by definition, so the framing lemmas below state
    their facts in terms of it.
  - Both builders are functions of an immutable value. That makes them
    deterministic and free of mutation by construction.
- `Utf8`: Rust's `String::as_bytes` (`Encode`) and `str::from_utf8`
  (`Decode`).
  - `Decode` rejects exactly what Rust rejects: overlong forms, surrogates and
    values above U+10FFFF.
- `Decimal`: `format!("{}", n)` for lengths (`NatToDecimal`) and its inverse.
- `Wire`: a client-side reader for the framing. It is the independent partner
  against which the server's output is proved well framed.
  - The head runs to the first CR LF CR LF and is decoded as UTF-8.
  - The head is split into lines at CR LF; each line after the first is read
    as `Name: value`.
  - The body is everything after the blank line.
  - A message is *well framed* when its `Content-Length` value parses to the
    body's length.
- `Wrappers`: `Option` and `Result`.

Within the modelled core the source panics in three places. In the model each
of these panics is a `Failure` value. The other `unwrap`s, on socket I/O, are
left out with the socket:

| Panic in the source | `Failure` value |
|---|---|
| fewer than three request tokens (`request_vec[2]`) | `MalformedRequest` |
| `fs::read(..).unwrap()` on an unreadable file | `ResourceUnreadable(name)` |
| `str::from_utf8(..).unwrap()` on a file that is not UTF-8 | `NotText(name)` |

## Model

| member | source | states |
|---|---|---|
| Server.RegisterRoutes | src/main.rs:75-80 | The table has exactly the keys `/` and `/download`. `/` yields `("hello.html", "text/html")`; `/download` yields `("test.mp3", "audio/mpeg")`. |
| Server.GetResponseParts | src/main.rs:53-65 | A registered path gives status `HTTP/1.1 200 OK` with the handler's file name and type unchanged. Any other path gives `HTTP/1.1 404 NOT FOUND` with `404.html` and `text/html`. The result fails exactly when that file cannot be read. The content type is always `Some`, so the `application/octet-stream` default is never reached from here. |
| Server.HandleConnection | src/main.rs:37-50 | The request is refused as malformed exactly when the line has fewer than three whitespace-separated tokens. |
| Server.HandleConnectionOutcome | src/main.rs:42-50 | Once there is a path, an unreadable file stops the request. `/download` is then always answered. Any other path, 404 included, is answered exactly when its file is valid UTF-8; otherwise the fault names that file. |
| Server.HandleConnectionFraming | src/main.rs:42-50 | Every answered request is well framed for a client. The status matches the route. The body is the routed file's bytes. `/download` carries the four attachment headers in order, with the route's type and the file name; every other path carries `Content-Length` alone. |
| Server.SplitWhitespace | src/main.rs:37-39 | Every token is non-empty and holds no Unicode White_Space character. |
| Server.IsWhitespace | src/main.rs:37 | The Unicode White_Space property that `split_whitespace` splits on. Space, tab, LF and CR are whitespace; no visible ASCII character is. |
| Server.SplitJoinWith | src/main.rs:37-39 | For any words and any whitespace runs around and between them, with at least one whitespace character between consecutive words, the split gives back exactly the words in order. Leading, trailing and repeated whitespace is skipped. |
| Server.RequestLineAnySpacing | src/main.rs:37-40 | A request line with any whitespace around and between its three parts has the path as its second token. Repeated spaces, tabs and a trailing CR all count. The line is not refused as malformed. |
| Server.RequestLineTokens | src/main.rs:37-40 | `METHOD SP PATH SP VERSION` splits into its three parts, so the path is the second token. |
| Server.TwoTokensMalformed | src/main.rs:39-40 | A two-token request line is refused as malformed instead of indexing past the end. |
| Server.ExactMatchOnly | src/main.rs:55-62 | With the registered table, any path other than `/` and `/download` yields the 404 response for `404.html`. |
| Server.DownloadVariantsMiss | src/main.rs:55 | `/download?x` and `/download/` are not stripped before the lookup; both give 404. |
| Server.ServeIndex | src/main.rs:37-69 | `<verb> / <version>` is answered with status 200 and the inline format: `Content-Length` and the bytes of `hello.html`. |
| Server.ServeDownload | src/main.rs:37-73 | `<verb> /download <version>` is answered with status 200 and the attachment format: `keep-alive`, the length, `audio/mpeg`, `filename*=test.mp3`, then the bytes of `test.mp3`. |
| Server.ServeMissing | src/main.rs:37-58 | Any other path is answered with 404 and the inline format carrying `404.html`. |
| Server.Index | src/main.rs:67-69 | The `/` handler names `hello.html` as `text/html`. |
| Server.Download | src/main.rs:71-73 | The `/download` handler names `test.mp3` as `audio/mpeg`. |
| Server.DefaultRoutesClean | src/main.rs:75-79 | The registered table names files and types without carriage returns, so the framing lemmas apply to it. |
| Server.RegisteredRoutesFraming | src/main.rs:42-79 | With the registered table, every answered request reads back well framed, and its body is the routed file's bytes. |
| Server.StatusLinesClean | src/main.rs:15-58 | Neither status line (lines 15-16), nor the 404 file name and type (line 58), holds a carriage return. |
| Responses.New | src/response.rs:11-14 | A response exists exactly when the named file is readable. It carries the given fields and the file's bytes. |
| Responses.Response.Len | src/response.rs:15-17 | `len()` is the number of bytes of the contents. The framing lemmas show it is also the declared `Content-Length` and the length of the body a client reads. |
| Responses.Response.ContentTypeOrDefault | src/response.rs:26-29 | The stored content type when there is one; `application/octet-stream` otherwise. |
| Responses.Response.SimpleResponse | src/response.rs:18-23 | Fails exactly when the contents are not valid UTF-8. Otherwise the output is the status line, `Content-Length` with the decimal length, a blank line, and the contents; the last `len()` bytes are the contents unchanged. |
| Responses.Response.FileResponse | src/response.rs:24-45 | The output is the status line, then `Connection`, `Content-Length`, `Content-Type` and `content-disposition` in that order, a blank line, and the contents appended byte for byte; its last `len()` bytes are the contents. |
| Responses.SimpleLayout | src/response.rs:20-21 | The `format!` text of `simple_response` is exactly a head of one header followed by the text. |
| Responses.FileLayout | src/response.rs:30-41 | The `format!` text of `file_response` is exactly a head of four headers in order, ended by a blank line. |
| Responses.FileHeaderValues | src/response.rs:26-41 | The attachment headers are named in order. `Connection` is `keep-alive`. `Content-Type` is the stored type, or `application/octet-stream` when there is none. `content-disposition` is `attachment; filename*=` plus the file name. |
| Responses.SimpleResponseFraming | src/response.rs:18-23 | A client reading the inline format gets the status line and one `Content-Length` header. The declared length is `len()`, and the body after the first blank line is exactly the contents. |
| Responses.FileResponseFraming | src/response.rs:24-45 | A client reading the attachment format gets the four headers in order and the stored or default content type. The declared length is `len()`, and the body is exactly the contents. |
| Wire.ReadFrame | src/response.rs:30-43 | A head whose fields hold no CR reads back exactly as the status line, headers and body that were framed. |
| Wire.ReadFrameWellFramed | src/response.rs:30-43 | When the framed `Content-Length` is the decimal length of the body, the message read back is well framed. |
| Wire.FindBlankLineFirst | src/response.rs:36-43 | The head search returns the first CR LF CR LF, and finds none exactly when there is none. |
| Wire.FindInHead | src/response.rs:32-36 | In a head of CR-free lines, the first CR LF CR LF is the one that ends the head. |
| Wire.SplitJoin | src/response.rs:32-36 | CR-free lines joined with CR LF split back into the same lines. |
| Wire.ParseHeaderLines | src/response.rs:33-36 | `Name: value` lines with colon-free names parse back into the same headers, in order. |
| Decimal.NatToDecimal | src/response.rs:21 | The length is written as a non-empty run of ASCII digits with no leading zero. |
| Decimal.ParseNatToDecimal | src/response.rs:21 | The numeral written for a length reads back as that length. |
| Decimal.NatToDecimalInjective | src/response.rs:34 | Distinct lengths are written as distinct numerals. |
| Utf8.Encode | src/response.rs:22 | The UTF-8 bytes of a string, one scalar value after another, at least one byte per character. Decoding gives the string back (DecodeEncode), and the bytes of a concatenation are the concatenation of the bytes (EncodeAppend). |
| Utf8.Decode | src/response.rs:19 | The string whose UTF-8 encoding the bytes are, never longer than the bytes and non-empty for non-empty bytes. It is `None` exactly when the bytes are not well-formed UTF-8 (DecodeSound, DecodeSucceedsIff). |
| Utf8.DecodeFirst | src/response.rs:19 | A decoded scalar value's width lies within the input, and the bytes it consumed are its encoding. |
| Utf8.DecodeSound | src/response.rs:19 | Whatever `from_utf8` accepts encodes back to the same bytes. The text that `simple_response` formats is therefore the file's bytes. |
| Utf8.DecodeEncode | src/response.rs:19-22 | `from_utf8` of the bytes of any string gives that string back. |
| Utf8.DecodeSucceedsIff | src/response.rs:19 | `from_utf8` succeeds exactly on byte strings that are the encoding of some string. |
| Utf8.EncodeAppend | src/response.rs:20-22 | The bytes of a concatenation are the concatenation of the bytes. |
| Utf8.DecodeFirstEncode | src/response.rs:19 | The first scalar value of an encoding decodes back to itself with its own width. |

## Left out

- Socket I/O: `TcpListener::bind`, `incoming`, `BufReader::lines` and `write_all` (src/main.rs:20-25, 34-35, 45, 48). The request line is an input and the bytes to write are the result.
- The thread pool (src/main.rs:21, 27-29): it belongs to an external crate and only adds concurrency. Each connection is handled on its own.
- The `unwrap`s on I/O results (src/main.rs:20, 25, 35, 45, 48) are not modelled: they concern the socket.
- `fs::read` (src/response.rs:12) is a lookup in a `Files` map. A file absent from the map is unreadable; the model does not tell different I/O errors apart.
- `len` returns a `usize`. The model uses an unbounded `nat`, since a `Vec` in memory cannot exceed `usize`.
- The Rust typing details of the call sites are not modelled. These are the lifetime on `Response<'a>`, the `&str` passed where `Response::new` takes `String`, and `.as_bytes()` applied to the `Vec<u8>` returned by `simple_response` (src/main.rs:48, 53, 63). The model writes the bytes `simple_response` builds.
- Responses.SimpleResponseFraming: requires a status line without a carriage return. A CR in that field could end the head early or split a line for a client; the server's two constant status lines have none.
- Responses.FileResponseFraming: requires that the status line, file name and content type hold no carriage return, for the same reason. The route table's constants satisfy this.
- Server.HandleConnectionFraming: requires route handlers whose file names and types hold no carriage return. `register_routes`' table satisfies this (`Server.DefaultRoutesClean`), and `Server.RegisteredRoutesFraming` states the result for that table.
- Wire: the client-side reader exists only as the partner for the framing proofs. It does not model chunked bodies, header folding or case-insensitive header names.
