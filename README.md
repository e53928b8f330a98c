# webserver-c request handling, modelled in Dafny

A model of the request path of wooster0/webserver-c, a minimal HTTP/1.1
origin server written in C. The model takes one received buffer through the
whole path:

- The byte scanners `next_optional_whitespace`, `next_crlf` and `is_crlf`.
- `parse_request`, the single left-to-right pass. It reads the method token,
  the request target, the version test and the header lines. It returns a
  status and a filled `struct Request`.
- The static-resource resolution inside `handle_request`: one leading `/`
  dropped, `root_dir` prefixed, `root_file` substituted for the bare root,
  and one trailing `/` stripped.
- `get_content_type`, and the `root_dir` check at the top of
  `webserver_new`.
- `send_response`: the status line, the optional `Content-Type` and
  `Content-Length` lines, the blank line and the raw body. Each is written
  in turn, and the first refused write ends the response.
- `handle_request` as the orchestrator: parse, then resolve, look the file
  up and send, with 404 for a missing file.

Bytes are `char`s and buffers are `string`s. A C string is the prefix of its
buffer before the first NUL (`Types.CStr`). The file system is a map from
the opened path to the file's bytes. The connection is the bytes it has
accepted, plus the position of the first write it refuses.

Modules, one per part of the code:

- `Types`: the records of `webserver.h`.
- `Scanner`: the scanners.
- `Parser`: `parse_request`. `Parse` is the specification and
  `ParseRequest` is the cursor loop proved to compute it.
- `ParserProperties`: what the parser promises.
- `Resolver`: `webserver_new`'s check, the path building and
  `get_content_type`.
- `Serializer`: `send_response`.
- `Server`: `handle_request`.

Behaviour that departs from what a reader might expect is modelled as
written and named:

- The version test is inverted (`VersionTestRejects`). The remaining bytes
  are rejected when they agree with `"HTTP/1.1"` and its NUL, so a normal
  request line passes whatever its version says.
- The header that the blank line follows is never stored
  (`QuirkLastHeaderDropped`).
- HEAD still sends `Content-Length` (`HeadIsGetWithoutEntity`).
- A response without a body ends after its status line or its last header
  line, with no blank line: the status line alone without a body and a
  type (`BodilessIsStatusLine`), and the status line and the
  Content-Length line for HEAD with a non-empty body
  (`HeadIsGetWithoutEntity`).
- The content type comes from the request path, not from the file opened
  (`RootHasNoContentType`).

Where the code departs from what its own comments, messages and cited
standard announce, the model follows the code:

- The comment "validate HTTP version" (webserver.c:373) and the message
  "only HTTP/1.1 supported!" (webserver.c:375) announce a test that lets
  `HTTP/1.1` through. The `!memcmp` test at webserver.c:374 is inverted:
  it rejects a remainder that agrees with the literal and passes every
  normal request line (`VersionTestRejectsIff`, `VersionLinePasses`).
- webserver.h:15-17 documents `root_file` as the file that `root_dir`
  followed by `/` points at. The slash strip at webserver.c:231-232 also
  runs after `root_file` is substituted, so a `root_file` ending in `/`
  loses that slash (`ResolvePathSpec`).
- The header loop cites section 3.2 of RFC 7230 (webserver.c:393), where
  every header field line belongs to the message. Here a header section
  loses its last header: the loop breaks on the blank line at
  webserver.c:425-428 before it stores the header just read
  (`QuirkLastHeaderDropped`).
- With no header line at all, the blank line after the request line is
  never recognised. The key loop at webserver.c:398-404 starts on its CR
  LF, so the key is CR LF followed by every body byte up to the first `:`.
  That header is stored when a non-blank line follows its value
  (`QuirkBlankLineThenHeader`), and dropped like any other when the blank
  line follows it (`QuirkBlankLineSection`).
- A header line with an empty value, or no key at the cursor, ends the
  header list with 200 and discards every later header line
  (webserver.c:405-406, 420-421; `EmptyValueEndsHeaders`,
  `MissingKeyEndsHeaders`, `EmptyValueDiscardsHeaders`). An empty field
  value is legal in section 3.2 of RFC 7230.

Where C behaviour is undefined, the model takes the bounded reading:

- `method_s` is NUL-terminated after at most four bytes.
- A cursor stepped past the end reads nothing.
- `memcmp` compares at most the nine bytes of `"HTTP/1.1"` and its NUL, and
  never more than the bytes that remain.
- The header-value loop stops at the end of the buffer.
- The terminating NUL of a header value is not part of the model. The C
  writes it at `header.value[i]`, one byte past the `i` bytes that the
  realloc at webserver.c:414 provides (webserver.c:422).
- An empty `root_dir` is refused. The C reads `root_dir[-1]` there
  (webserver.c:14).
- The path buffer has room for `root_dir`, the request path, `root_file`
  and a NUL, and reads as NUL past the bytes written. The C allocates
  `path_len` bytes, writes one past them, and leaves `root_file`
  unterminated (webserver.c:217-229).
- A C string of length zero is never cut at index -1 (webserver.c:231).

The configuration names are C strings, so they hold no NUL (`CStrings`).

## Model

| member | source | states |
|---|---|---|
| `Scanner.OwsRunSpec` | webserver.c:279-284 | the whitespace skipped is all spaces and tabs, stops at the first other byte or at the end, and never passes the end |
| `Scanner.NextOptionalWhitespace` | webserver.c:279-284 | the loop returns exactly the length of that run |
| `Scanner.IsCrlf` | webserver.c:303-312 | true exactly when two bytes remain at the cursor and they are CR LF |
| `Scanner.CrlfOffsetSpec` | webserver.c:289-301 | next_crlf stops on the LF of the first CR LF pair (a lone CR is an ordinary byte); with no pair it consumes every remaining byte; it never passes the end |
| `Scanner.NextCrlf` | webserver.c:289-301 | the loop returns that offset |
| `Scanner.LineLenSpec` | webserver.c:413-419 | a header value runs up to the first CR LF pair, or to the end, with no pair inside it |
| `Parser.MethodToken` | webserver.c:332-335 | the method buffer holds at most four bytes, all taken from the front of the input |
| `Parser.ParseRequest` | webserver.c:319-438 | the pass returns exactly the response and request that `Parse` specifies |
| `Parser.ReadHeaders` | webserver.c:395-437 | the header loop stores exactly `HeadersFrom`: the headers in arrival order, ending at a missing key, an empty value or the blank line |
| `Parser.ReadField` | webserver.c:396-423 | one pass of the loop body reads the key up to `:`, skips optional whitespace, and reads the value up to CR LF |
| `Parser.ReadUntil` | webserver.c:354-360 | the growing loops collect exactly the bytes before the first stop byte or the end |
| `Parser.ReadLine` | webserver.c:413-419 | the value loop collects exactly the bytes before the first CR LF pair or the end |
| `ParserProperties.MethodTokenSpec` | webserver.c:332-335 | the token holds no space and is cut short only by four bytes, a space or the end |
| `ParserProperties.MethodName` | webserver.h:25-28 | the name of each of the two methods reads back as that method |
| `ParserProperties.ParseShape` | webserver.h:35-45 | every outcome is 200, 400, 501 or 505; the body is always absent; headers exist only on 200; the method is unset exactly on 501; the path is unset exactly on 400 and 501 and otherwise non-empty |
| `ParserProperties.NotImplementedIff` | webserver.c:336-347 | 501 exactly when the C string in the token is neither "GET" nor "HEAD", and then nothing is set |
| `ParserProperties.NamesIsCStr` | webserver.c:336-338 | the token names a method exactly when strcmp finds its C string equal to the name |
| `ParserProperties.HeadPrefixIsHead` | webserver.c:333-339 | "HEAD" followed by anything is read as HEAD |
| `ParserProperties.GetWithSuffixNotImplemented` | webserver.c:333-347 | "GET" followed by a byte other than a space or NUL gets 501 |
| `ParserProperties.MethodFound` | webserver.c:336-339 | a recognised method is set and parsing continues with the target |
| `ParserProperties.BadRequestIff` | webserver.c:353-368 | 400 exactly when no target byte follows the method separator |
| `ParserProperties.ParseTargetFields` | webserver.c:349-381 | after the method: 400 with no path, or the target bytes as the path and then 200 or 505 |
| `ParserProperties.TargetSpec` | webserver.c:349-369 | the path is exactly the undecoded bytes after the method separator up to the next space or the end |
| `ParserProperties.TargetOfParseTarget` | webserver.c:354-369 | the same, stated at any starting position |
| `ParserProperties.TargetToEndIsVersionNotSupported` | webserver.c:354-381 | a target that runs to the end of the buffer is not a 400 but a 505 |
| `ParserProperties.ParseVersionCases` | webserver.c:371-437 | 505 exactly when the version test rejects, and then no headers; otherwise 200, whatever the header lines hold |
| `ParserProperties.AgreeIff` | webserver.c:374 | the bounded memcmp agrees exactly when one string is a prefix of the other |
| `ParserProperties.VersionTestRejectsIff` | webserver.c:374-381 | the test rejects exactly a remainder that is a prefix of "HTTP/1.1" and its NUL, or starts with all nine bytes; the empty remainder is rejected |
| `ParserProperties.CrWithinNinePasses` | webserver.c:374 | a CR within the first nine remaining bytes lets the request through |
| `ParserProperties.VersionLinePasses` | webserver.c:371-384 | a version field without CR and NUL, ended by CR LF, always passes, whatever the version says |
| `ParserProperties.FieldAtLine` | webserver.c:396-423 | a header line with any run of spaces and tabs after the colon, none included, is read back as its untrimmed key and its value; the value starts after all that whitespace and keeps any whitespace it ends in; the next line starts after its CR LF |
| `ParserProperties.HeadersStep` | webserver.c:425-434 | helper for `QuirkLastHeaderDropped`: one step of the header loop, where a header that a non-blank line follows is stored ahead of the later ones |
| `ParserProperties.HeadersStop` | webserver.c:425-428 | helper for `QuirkLastHeaderDropped`: one step of the header loop, where the header that the blank line follows is not stored |
| `ParserProperties.QuirkLastHeaderDropped` | webserver.c:395-437 | a header section, with any whitespace after each colon, is read back in arrival order, trailing whitespace in values kept, minus its last header |
| `ParserProperties.ParseWellFormed` | webserver.c:319-438 | a well-formed request with header lines gives 200 with the exact method and target, every header but the last, and no body |
| `ParserProperties.RequestLineAccepted` | webserver.c:319-391 | any request line a client writes, with a non-empty target without spaces and a version without CR or NUL, gets 200 with exactly that method and target and no body, whatever follows it |
| `ParserProperties.RequestLineAcceptedAt` | webserver.c:319-395 | the same for a buffer holding that request line; the header loop starts on the line right after its CR LF |
| `ParserProperties.ParseNoHeaderLines` | webserver.c:395-407 | a request line followed by the blank line and a body without `:` gets 200 with the exact method and target and no headers |
| `ParserProperties.QuirkBlankLineReadAsKey` | webserver.c:395-434 | with no header line, a body made of a key, `:`, whitespace and a value that runs to the end of the buffer is stored as one header whose key is CR LF followed by every body byte before the `:`; this holds under the bounded reading of the value loop, which has no end check |
| `ParserProperties.QuirkBlankLineThenHeader` | webserver.c:395-434 | with no header line, on input that ends properly, the first header is CR LF followed by every body byte up to the first `:`, with its value, when a non-blank header line follows it |
| `ParserProperties.QuirkBlankLineSection` | webserver.c:395-437 | with no header line, a body that is a whole header section is read as that section with CR LF prefixed to the first key, minus its last header; a single line before the blank line stores nothing |
| `ParserProperties.EmptyValueEndsHeaders` | webserver.c:410-421 | a header line with an empty value ends the header list, whatever follows it |
| `ParserProperties.MissingKeyEndsHeaders` | webserver.c:398-406 | with no key byte at the cursor (the end, or a `:`), the header list ends |
| `ParserProperties.EmptyValueDiscardsHeaders` | webserver.c:319-421 | a first header line with an empty value gives 200 with the method and target and no header at all, whatever the later lines hold |
| `ParserProperties.ExampleLastHeaderDropped` | webserver.c:395-437 | "Host: example.com" and then "X-Test:  value  " before the blank line: only the Host header is stored |
| `ParserProperties.ExampleNoHeaders` | webserver.c:319-438 | "GET / HTTP/1.1", CR LF and the blank line give 200, GET, "/" and no headers |
| `Resolver.WebserverNew` | webserver.c:13-19 | an accepted configuration keeps root_dir and root_file as given |
| `Resolver.NewStatus` | webserver.c:13-17 | webserver_new returns 0 or 1, and 0 exactly when root_dir ends in a slash |
| `Resolver.EndsInSeparatorIsLastByte` | webserver.c:14 | ending in `/` is decided by the last byte alone |
| `Resolver.RequestPath` | webserver.c:212-213 | the request path used for resolution is NUL-free and no longer than the parsed path |
| `Resolver.RequestPathDropsOne` | webserver.c:212-213 | exactly one leading slash is dropped and everything after it is kept |
| `Resolver.ResolvePathSpec` | webserver.c:216-232 | the path opened is root_dir followed by the request path (or by root_file for an empty one), with exactly one trailing slash removed if there is one |
| `Resolver.ResolvedUnderRoot` | webserver.c:216-232 | with an accepted configuration and a non-empty root_file, root_dir is a prefix of every path opened |
| `Resolver.FilePathOfRoot` | webserver.c:226-229 | a request for "/" opens root_file in root_dir |
| `Resolver.FilePathOfName` | webserver.c:212-224 | a request for "/name" opens name in root_dir |
| `Resolver.FilePathOfDirectory` | webserver.c:231-232 | a request for "/name/" opens name in root_dir, without its trailing slash |
| `Resolver.CopyInto` | webserver.c:222-223 | memcpy replaces exactly the bytes at the offset and leaves every other byte as it was |
| `Resolver.Strlen` | webserver.c:226-231 | strlen stops at the first NUL, with no NUL before it |
| `Resolver.JoinPath` | webserver.c:216-224 | after root_dir and the request path are copied in and a NUL is written at path_len, the buffer holds their concatenation as a C string |
| `Resolver.CutSeparator` | webserver.c:231-232 | a NUL written over a trailing slash leaves the C string without it; a C string not ending in a slash is left as it is |
| `Resolver.BuildPath` | webserver.c:216-232 | copying root_dir and the path, comparing with strcmp, copying root_file over the NUL and cutting a trailing slash leaves exactly the resolved path as the buffer's C string |
| `Resolver.LastIndexOf` | webserver.c:172 | strrchr finds the last '.', with none after it, or reports that there is none |
| `Resolver.ExtensionAtLastDot` | webserver.c:172-187 | a path ends with an extension exactly when the text from its last '.' is that extension |
| `Resolver.ContentTypeBySuffix` | webserver.c:168-191 | the content type is that of the known extension the path ends with, matched exactly and case-sensitively; there is none for any other path |
| `Resolver.ContentTypeOfLastPart` | webserver.c:168-191 | nothing before the last '.' changes the content type |
| `Serializer.Decimal` | webserver.c:137-141 | the length is printed as decimal digits with a leading zero only for zero |
| `Serializer.DecimalRoundTrip` | webserver.c:137-141 | the printed digits read back as the number printed |
| `Serializer.TransmitPrefix` | webserver.c:122-157 | a refused write leaves a prefix of the message on the wire and reports failure; the whole message is sent only when no write is refused |
| `Serializer.WriteHeaderLines` | webserver.c:122-143 | the status line and the header lines are written in order, and writing stops at the first refusal |
| `Serializer.SendResponse` | webserver.c:111-166 | after HEAD drops the body and the type, the writes go out in order; the wire and the result are those of the specified writes under the same refusals |
| `Serializer.MessageParts` | webserver.c:114-157 | a message is the status line, then the Content-Type line (GET with a type), then the Content-Length line (a non-empty body, for HEAD too), then the blank line and the body (GET with a body) |
| `Serializer.BodilessIsStatusLine` | webserver.c:129-157 | a response without a body or a type is its status line alone, for either method |
| `Serializer.HeadIsGetWithoutEntity` | webserver.c:114-143 | a HEAD response is the status line and the same Content-Length line as GET, and GET adds only the blank line and the body |
| `Serializer.BodyFramed` | webserver.c:137-157 | a non-empty body comes last, byte for byte and NULs included, after its Content-Length line and the blank line |
| `Serializer.EmptyBodyUnannounced` | webserver.c:137-157 | an empty body is sent as the blank line alone, with no Content-Length line |
| `Serializer.StatusLineCode` | webserver.c:123-126 | a status line, whatever follows it, reads back as its status code |
| `Serializer.StatusCodeRoundTrip` | webserver.c:123-126 | every message sent reads back as the status code it was sent with |
| `Server.HandleRequest` | webserver.c:193-274 | the handler's wire and result are those of sending `Handle`'s decision under the same refusals |
| `Server.HandleOutcomes` | webserver.c:210-273 | a body exactly on 200 (the opened file's bytes); 404 exactly when the parser accepted the request and the file is missing; otherwise the parser's status; a type only on 200; the parser's method whenever it set one |
| `Server.ErrorsAreStatusLineOnly` | webserver.c:237-242 | every response but a 200 is its status line alone |
| `Server.NotFoundLine` | webserver.c:239-241 | the 404 status line is "HTTP/1.1 404 Not Found" and CR LF |
| `Server.MissingFileIsNotFound` | webserver.c:236-242 | an accepted request for a missing file is answered with exactly that line |
| `Server.ServesFile` | webserver.c:193-270 | a GET for a present file gets 200, the request path's type, the file length, the blank line and the file, whatever follows the request line, header lines or none; a HEAD gets the status line and the same length line |
| `Server.MainConfigAccepted` | main.c:19 | main.c's configuration ("public/", "index.html") is accepted, and its names are C strings |
| `Server.MainConfigRoot` | webserver.c:226-229 | with that configuration "/" opens "public/index.html" |
| `Server.MainConfigFile` | webserver.c:212-224 | "/style.css" opens "public/style.css" |
| `Server.MainConfigDirectory` | webserver.c:231-232 | "/sub/" opens "public/sub" |
| `Server.RootHasNoContentType` | webserver.c:266 | "/" opens the same file as "/" followed by root_file, but gets no content type while the second gets root_file's |
| `Server.MainConfigRootType` | webserver.c:173-174 | main.c's root file, requested by name, is sent as text/html |

## Left out

- Sockets are not modelled: socket, bind and listen in `webserver_new`,
  and the accept, recv and close loop of `webserver_listen`. They are
  operating-system I/O. The received bytes are a parameter.
- The 1024-byte receive buffer is not modelled. Parsing works on
  buffers of any length.
- File access in `handle_request` is a map from path to bytes. fopen,
  fseek, ftell, fread and fclose are not modelled, and neither are their -1
  and `exit(1)` paths. A path the map lacks gives 404. Opening a
  directory is not distinguished from opening a file.
- Logging (`printf`, `fprintf`, `perror`) and the `verbose` flag are left
  out. They only produce diagnostics.
- The numeric return of `send_response` and `handle_request` is not
  modelled. The C returns the count of the last write, not the total. The
  model keeps success or failure and the bytes sent.
- Partial writes are not modelled. A write either sends all its bytes or
  is refused.
- Allocation failure and its `exit(1)` are not modelled, nor is growth of
  the buffers one byte at a time. Buffers are sequences that grow.
- The C memory-safety faults are given their bounded readings, listed above:
  the write at `method_s[4]`, the cursor stepped past `end`, the over-long
  `memcmp`, the value loop without an end check, the NUL written one past
  the header value, `root_dir[-1]`, and the undersized, unterminated path
  buffer.
- The method passed to `send_response` on the 501 path is uninitialised in
  the C. The model passes GET there. `BodilessIsStatusLine` shows that the
  bytes sent do not depend on it.
- `main.c` is used only for its configuration values.
