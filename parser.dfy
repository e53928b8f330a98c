/** parse_request of webserver.c: one left-to-right pass over the received
    bytes that reads the request line and the header fields into a Request
    and answers with the Response the handler continues from.

    `Parse` is the specification: it names, for any buffer, the response and
    the request the pass produces. `ParseRequest` is the pass itself, a
    cursor that grows the path, the header key and value and the header
    list byte by byte, proved to compute `Parse`. */
module Parser {
  import opened Types
  import opened Scanner

  /** sizeof(method_s): at most this many bytes of the method are read. */
  const MethodTokenMax: nat := 4

  /** The string literal the version is compared with, terminating NUL included. */
  const VersionLiteral: string := "HTTP/1.1\0"

  /** The number of bytes from `pos` before the first `stop` byte, or before the end. */
  function RunLen(buf: string, pos: nat, stop: char): (r: nat)
    ensures r == 0 || pos + r <= |buf|
    decreases |buf| - pos
  {
    if pos >= |buf| || buf[pos] == stop then 0 else 1 + RunLen(buf, pos + 1, stop)
  }

  /** The run holds no `stop` byte and ends at the end or at a `stop` byte. */
  lemma {:induction false} RunLenSpec(buf: string, pos: nat, stop: char)
    ensures var r := RunLen(buf, pos, stop);
      (r == 0 || pos + r <= |buf|)
      && (forall k :: pos <= k < pos + r ==> buf[k] != stop)
      && (pos + r < |buf| ==> buf[pos + r] == stop)
    decreases |buf| - pos
  {
    if pos < |buf| && buf[pos] != stop {
      RunLenSpec(buf, pos + 1, stop);
    }
  }

  /** The run length is determined by where the run ends. */
  lemma {:induction false} RunLenIs(buf: string, pos: nat, stop: char, n: nat)
    requires pos + n <= |buf|
    requires forall k :: pos <= k < pos + n ==> buf[k] != stop
    requires pos + n == |buf| || buf[pos + n] == stop
    ensures RunLen(buf, pos, stop) == n
    decreases n
  {
    if n > 0 {
      RunLenIs(buf, pos + 1, stop, n - 1);
    }
  }

  /** Whether strcmp finds the C string in the token buffer equal to
      `name`: the token starts with `name`, and a NUL or the end of the
      buffer comes right after it. */
  predicate Names(token: string, name: string)
  {
    name <= token && (|token| == |name| || token[|name|] == '\0')
  }

  /** The method a token names, compared case-sensitively as strcmp compares
      the C string in method_s. */
  function MethodOf(token: string): Option<Method>
  {
    if Names(token, "GET") then Some(Get) else if Names(token, "HEAD") then Some(Head) else None
  }

  /** The bytes from `pos` to the end; none once the cursor is past the end. */
  function Remaining(buf: string, pos: nat): string
  {
    if pos <= |buf| then buf[pos..] else []
  }

  /** Whether two byte strings agree over the shorter one's length, byte by
      byte as memcmp compares them. */
  predicate Agree(a: string, b: string)
    decreases |a|
  {
    a == [] || b == [] || (a[0] == b[0] && Agree(a[1..], b[1..]))
  }

  /** The version test as written: `!memcmp(buf, "HTTP/1.1", end - buf)`
      rejects the request when the remaining bytes agree with the literal
      over their whole length. The comparison is bounded to the literal's
      nine bytes. The test is inverted: agreeing is what it rejects. */
  predicate VersionTestRejects(rest: string)
  {
    Agree(rest, VersionLiteral)
  }

  /** One header line as the parser reads it: a key up to `:`, then, after
      optional whitespace, a value up to CR LF; `next` is where the following
      line starts. NoField stands for a missing key or an empty value. */
  datatype FieldLine = NoField | Field(key: string, value: string, next: nat)

  /** The header line that starts at `pos`. */
  function FieldAt(buf: string, pos: nat): (f: FieldLine)
    ensures f.Field? ==> pos < f.next <= |buf| + 2
  {
    var keyLen := RunLen(buf, pos, ':');
    if keyLen == 0 then NoField
    else
      var valueStart := pos + keyLen + 1 + OwsRun(buf, pos + keyLen + 1);
      var valueLen := LineLen(buf, valueStart);
      if valueLen == 0 then NoField
      else Field(buf[pos..pos + keyLen], buf[valueStart..valueStart + valueLen],
                 valueStart + valueLen + 2)
  }

  /** The header fields stored from `pos` on, in arrival order. A missing
      key or an empty value ends the list; so does a blank line, and the
      header whose line the blank line follows is not stored. */
  function HeadersFrom(buf: string, pos: nat): seq<Header>
    decreases |buf| + 2 - pos
  {
    match FieldAt(buf, pos)
    case NoField => []
    case Field(key, value, next) =>
      if IsCrlf(buf, next) then [] else [Header(key, value)] + HeadersFrom(buf, next)
  }

  /** What the parser hands back: the response and the request it filled. */
  datatype Parsed = Parsed(response: Response, request: Request)

  /** The method token: the bytes before the first space, at most
      MethodTokenMax of them. */
  function MethodToken(buf: string): (token: string)
    ensures |token| <= MethodTokenMax && token <= buf
  {
    buf[..Min(RunLen(buf, 0, ' '), MethodTokenMax)]
  }

  /** The result of parse_request on `buf`. */
  function Parse(buf: string): Parsed
  {
    match MethodOf(MethodToken(buf))
    case None => Parsed(NotImplemented, Request(None, None, [], None))
    case Some(m) => ParseTarget(buf, m, |MethodToken(buf)| + 1)
  }

  /** The rest of the request once the method `m` is known; the cursor has
      stepped over one byte after the method token and stands at `pathStart`. */
  function ParseTarget(buf: string, m: Method, pathStart: nat): Parsed
  {
    var pathLen := RunLen(buf, pathStart, ' ');
    if pathLen == 0 then Parsed(BadRequest, Request(Some(m), None, [], None))
    else ParseVersion(buf, m, buf[pathStart..pathStart + pathLen], pathStart + pathLen + 1)
  }

  /** The rest of the request once the target `path` is read; the cursor has
      stepped over one byte after it and stands at `versionStart`. */
  function ParseVersion(buf: string, m: Method, path: string, versionStart: nat): Parsed
  {
    if VersionTestRejects(Remaining(buf, versionStart)) then
      Parsed(VersionNotSupported, Request(Some(m), Some(path), [], None))
    else
      var headerStart := versionStart + CrlfOffset(buf, versionStart) + 1;
      Parsed(Ok, Request(Some(m), Some(path), HeadersFrom(buf, headerStart), None))
  }

  lemma ParseVersionAccepts(buf: string, m: Method, path: string, versionStart: nat,
                            headerStart: nat, request: Request)
    requires !VersionTestRejects(Remaining(buf, versionStart))
    requires headerStart == versionStart + CrlfOffset(buf, versionStart) + 1
    requires request == Request(Some(m), Some(path), HeadersFrom(buf, headerStart), None)
    ensures ParseVersion(buf, m, path, versionStart) == Parsed(Ok, request)
  {
  }

  /** parse_request: reads `buf` and returns the response and the request. */
  method ParseRequest(buf: string) returns (response: Response, request: Request)
    ensures Parsed(response, request) == Parse(buf)
  {
    // only the headers and the body are written before the input is read
    request := Request(None, None, [], None);

    // the case-sensitive method, at most MethodTokenMax bytes before a space
    var pos := 0;
    var methodS := "";
    while pos < MethodTokenMax && pos < |buf| && buf[pos] != ' '
      invariant pos <= MethodTokenMax && pos <= |buf|
      invariant methodS == buf[..pos]
      invariant RunLen(buf, 0, ' ') == pos + RunLen(buf, pos, ' ')
    {
      methodS := methodS + [buf[pos]];
      pos := pos + 1;
    }
    assert methodS == MethodToken(buf);
    var m := MethodOf(methodS);
    if m.None? {
      assert Parse(buf) == Parsed(NotImplemented, request);
      return NotImplemented, request;
    }
    assert Parse(buf) == ParseTarget(buf, m.value, pos + 1);
    request := request.(httpMethod := m);
    pos := pos + 1; // skip space

    // the request target, up to the next space or the end
    var pathStart := pos;
    var path;
    path, pos := ReadUntil(buf, pos, ' ');
    if path == [] {
      assert ParseTarget(buf, m.value, pathStart) == Parsed(BadRequest, request);
      assert Parse(buf) == Parsed(BadRequest, request);
      return BadRequest, request;
    }
    assert ParseTarget(buf, m.value, pathStart) == ParseVersion(buf, m.value, path, pos + 1);
    request := request.(path := Some(path));
    pos := pos + 1; // skip space

    if VersionTestRejects(Remaining(buf, pos)) {
      assert ParseVersion(buf, m.value, path, pos) == Parsed(VersionNotSupported, request);
      assert Parse(buf) == Parsed(VersionNotSupported, request);
      return VersionNotSupported, request;
    }

    ghost var versionStart := pos;
    var offset := NextCrlf(buf, pos);
    pos := pos + offset;
    pos := pos + 1; // skip the LF that ends the request line

    ghost var headerStart := versionStart + CrlfOffset(buf, versionStart) + 1;
    assert pos == headerStart;
    var headers := ReadHeaders(buf, pos);
    assert headers == HeadersFrom(buf, headerStart);
    request := request.(headers := headers);
    ParseVersionAccepts(buf, m.value, path, versionStart, headerStart, request);
    return Ok, request;
  }

  /** The header loop of parse_request, from the start of the first header
      line: the headers stored, in arrival order. */
  method ReadHeaders(buf: string, start: nat) returns (headers: seq<Header>)
    ensures headers == HeadersFrom(buf, start)
  {
    headers := [];
    var pos := start;
    while true
      invariant headers + HeadersFrom(buf, pos) == HeadersFrom(buf, start)
      decreases |buf| + 2 - pos
    {
      var field := ReadField(buf, pos);
      if field.NoField? {
        return;
      }
      pos := field.next;
      // another CR LF ends the header section
      if IsCrlf(buf, pos) {
        break;
      }
      headers := headers + [Header(field.key, field.value)];
    }
  }

  /** The loops that grow the path and a header key: the bytes from
      `start` up to the first `stop` byte or the end, and the cursor there. */
  method ReadUntil(buf: string, start: nat, stop: char) returns (bytes: string, pos: nat)
    ensures |bytes| == RunLen(buf, start, stop) && pos == start + |bytes|
    ensures bytes != [] ==> bytes == buf[start..pos]
  {
    pos := start;
    bytes := "";
    while pos < |buf| && buf[pos] != stop
      invariant start <= pos
      invariant pos == start || pos <= |buf|
      invariant bytes == if pos == start then [] else buf[start..pos]
      invariant RunLen(buf, start, stop) == pos - start + RunLen(buf, pos, stop)
    {
      bytes := bytes + [buf[pos]];
      pos := pos + 1;
    }
  }

  /** One pass of the header loop body: the key, the skipped whitespace and
      the value, grown byte by byte. */
  method ReadField(buf: string, start: nat) returns (field: FieldLine)
    ensures field == FieldAt(buf, start)
  {
    var key, pos := ReadUntil(buf, start, ':');
    ghost var keyLen := RunLen(buf, start, ':');
    if key == [] {
      assert FieldAt(buf, start) == NoField;
      return NoField;
    }
    pos := pos + 1; // skip colon

    var ows := NextOptionalWhitespace(buf, pos);
    pos := pos + ows;
    assert pos == start + keyLen + 1 + OwsRun(buf, start + keyLen + 1);

    ghost var valueStart := pos;
    var value;
    value, pos := ReadLine(buf, pos);
    ghost var valueLen := LineLen(buf, valueStart);
    if value == [] {
      assert FieldAt(buf, start) == NoField;
      return NoField;
    }
    assert value == buf[valueStart..valueStart + valueLen];
    pos := pos + 2; // skip the CR LF
    assert FieldAt(buf, start) == Field(key, value, pos);
    return Field(key, value, pos);
  }

  /** The loop that grows a header value: the bytes from `start` up to the
      first CR LF pair or the end, and the cursor there. */
  method ReadLine(buf: string, start: nat) returns (bytes: string, pos: nat)
    ensures |bytes| == LineLen(buf, start) && pos == start + |bytes|
    ensures bytes != [] ==> bytes == buf[start..pos]
  {
    pos := start;
    bytes := "";
    while pos < |buf| && !IsCrlf(buf, pos)
      invariant start <= pos
      invariant pos == start || pos <= |buf|
      invariant bytes == if pos == start then [] else buf[start..pos]
      invariant LineLen(buf, start) == pos - start + LineLen(buf, pos)
    {
      bytes := bytes + [buf[pos]];
      pos := pos + 1;
    }
  }
}
