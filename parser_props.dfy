/** What parse_request promises, stated over the specification `Parse`:
    how the method token, the target, the version test and the header lines
    decide the outcome, and the request a well-formed message produces. */
module ParserProperties {
  import opened Types
  import opened Scanner
  import opened Parser

  /** Reading a run without `stop` located at `pos`. */
  lemma RunLenFrom(buf: string, pos: nat, s: string, post: string, stop: char)
    requires pos <= |buf| && buf[pos..] == s + post
    requires stop !in s
    requires post == [] || post[0] == stop
    ensures RunLen(buf, pos, stop) == |s|
    ensures pos + |s| <= |buf| && buf[pos..pos + |s|] == s
  {
    Located(buf, pos, s, post);
    forall k | pos <= k < pos + |s| ensures buf[k] != stop {
      assert buf[k] == buf[pos..][k - pos];
    }
    if post != [] {
      assert buf[pos + |s|] == buf[pos..][|s|];
    }
    RunLenIs(buf, pos, stop, |s|);
  }

  /** The method token is the longest prefix of at most MethodTokenMax bytes
      without a space: it is cut short only by a space or by the end. */
  lemma MethodTokenSpec(buf: string)
    ensures var t := MethodToken(buf);
      ' ' !in t
      && (|t| == MethodTokenMax || t == buf || buf[|t|] == ' ')
  {
    RunLenSpec(buf, 0, ' ');
    var t := MethodToken(buf);
    forall k | 0 <= k < |t| ensures t[k] != ' ' {
      assert t[k] == buf[k];
    }
  }

  /** The outcomes once the target is read: the method and the path are
      set and no body; a 505 without headers when the version test rejects
      the rest, a 200 otherwise. */
  lemma ParseVersionCases(buf: string, m: Method, path: string, versionStart: nat)
    ensures var p := ParseVersion(buf, m, path, versionStart);
      p.request.httpMethod == Some(m) && p.request.body == None
      && p.request.path.Some? && p.request.path.value == path
      && (p.response == Ok || p.response == VersionNotSupported)
      && (p.response == VersionNotSupported <==> VersionTestRejects(Remaining(buf, versionStart)))
      && (p.response == VersionNotSupported ==> |p.request.headers| == 0)
  {
  }

  /** The outcomes once the method is known: the method is set and there is
      no body; a 400 without path and headers exactly when the target is
      empty, otherwise the target's bytes are the path and the version step
      decides between 200 and 505. */
  lemma ParseTargetFields(buf: string, m: Method, pathStart: nat)
    ensures var p := ParseTarget(buf, m, pathStart);
      var n := RunLen(buf, pathStart, ' ');
      p.request.httpMethod == Some(m) && p.request.body == None
      && (p.response == BadRequest <==> n == 0)
      && (n == 0 ==> p.request.path.None? && |p.request.headers| == 0)
      && (n != 0 ==>
            pathStart + n <= |buf|
            && p.request.path.Some? && p.request.path.value == buf[pathStart..pathStart + n]
            && (p.response == Ok || p.response == VersionNotSupported)
            && (p.response == VersionNotSupported ==> |p.request.headers| == 0))
  {
    var n := RunLen(buf, pathStart, ' ');
    if n != 0 {
      ParseVersionCases(buf, m, buf[pathStart..pathStart + n], pathStart + n + 1);
    }
  }

  /** What every outcome of the parser has in common: one of four statuses;
      no body; headers only on 200; a method and a non-empty path on every
      outcome but the 501 and the 400. */
  lemma ParseShape(buf: string)
    ensures var p := Parse(buf);
      (p.response == Ok || p.response == BadRequest
       || p.response == NotImplemented || p.response == VersionNotSupported)
      && p.request.body == None
      && (p.response != Ok ==> p.request.headers == [])
      && (p.response == NotImplemented <==> p.request.httpMethod == None)
      && (p.response == BadRequest || p.response == NotImplemented <==> p.request.path == None)
      && (p.request.path.Some? ==> p.request.path.value != [])
  {
    match MethodOf(MethodToken(buf))
    case None =>
    case Some(m) =>
      MethodFound(buf, m);
      ParseTargetFields(buf, m, |MethodToken(buf)| + 1);
  }

  /** Only the method decides a 501: it is returned exactly when the token
      names neither GET nor HEAD, and then no method and no path is set. */
  lemma NotImplementedIff(buf: string)
    ensures Parse(buf).response == NotImplemented
        <==> CStr(MethodToken(buf)) != "GET" && CStr(MethodToken(buf)) != "HEAD"
    ensures Parse(buf).response == NotImplemented
        ==> Parse(buf).request == Request(None, None, [], None)
  {
    ParseShape(buf);
    NamesIsCStr(MethodToken(buf), "GET");
    NamesIsCStr(MethodToken(buf), "HEAD");
    var m := MethodOf(MethodToken(buf));
    if m.Some? {
      MethodFound(buf, m.value);
    }
  }

  /** The method comparison is strcmp on the C string in the token buffer:
      for a name without NUL, the token names it exactly when its C string
      is that name. */
  lemma {:induction false} NamesIsCStr(token: string, name: string)
    requires '\0' !in name
    ensures Names(token, name) <==> CStr(token) == name
    decreases |name|
  {
    if name != [] && token != [] {
      NamesIsCStr(token[1..], name[1..]);
      assert Names(token, name) <==> token[0] == name[0] && Names(token[1..], name[1..]);
      if token[0] != '\0' {
        assert CStr(token) == [token[0]] + CStr(token[1..]);
        assert CStr(token) == name <==> token[0] == name[0] && CStr(token[1..]) == name[1..];
      }
    }
  }

  /** A token longer than four bytes is cut after four: "HEAD" followed by
      anything but a space still reads as HEAD (the byte after it is then
      skipped as if it were the space). */
  lemma HeadPrefixIsHead(rest: string)
    ensures MethodToken("HEAD" + rest) == "HEAD"
    ensures Parse("HEAD" + rest).request.httpMethod == Some(Head)
  {
    var buf := "HEAD" + rest;
    calc {
      RunLen(buf, 0, ' ');
      1 + RunLen(buf, 1, ' ');
      2 + RunLen(buf, 2, ' ');
      3 + RunLen(buf, 3, ' ');
      4 + RunLen(buf, 4, ' ');
    }
    assert MethodToken(buf) == "HEAD";
    MethodFound(buf, Head);
  }

  /** "GET" followed by a byte other than a space is not GET: the token
      "GETX" names no method and the answer is 501. */
  lemma GetWithSuffixNotImplemented(c: char, rest: string)
    requires c != ' ' && c != '\0'
    ensures Parse("GET" + [c] + rest).response == NotImplemented
  {
    var buf := "GET" + [c] + rest;
    calc {
      RunLen(buf, 0, ' ');
      1 + RunLen(buf, 1, ' ');
      2 + RunLen(buf, 2, ' ');
      3 + RunLen(buf, 3, ' ');
    }
    assert RunLen(buf, 3, ' ') >= 1;
    var t := MethodToken(buf);
    assert t == buf[..4];
    assert !Names(t, "GET") && !Names(t, "HEAD");
  }

  /** Once the method is known, the 501 is ruled out and the method is set. */
  lemma MethodFound(buf: string, m: Method)
    requires MethodOf(MethodToken(buf)) == Some(m)
    ensures Parse(buf).request.httpMethod == Some(m)
    ensures Parse(buf) == ParseTarget(buf, m, |MethodToken(buf)| + 1)
  {
    ParseTargetFields(buf, m, |MethodToken(buf)| + 1);
  }

  /** Zero target bytes after the method separator, and only that, give 400. */
  lemma BadRequestIff(buf: string, m: Method)
    requires MethodOf(MethodToken(buf)) == Some(m)
    ensures Parse(buf).response == BadRequest <==> RunLen(buf, |MethodToken(buf)| + 1, ' ') == 0
  {
    MethodFound(buf, m);
    ParseTargetFields(buf, m, |MethodToken(buf)| + 1);
  }

  /** `path` is read as a target at `pathStart`: the bytes there up to the
      next space or the end of the buffer, undecoded. */
  predicate TargetAt(buf: string, pathStart: nat, path: string)
  {
    pathStart + |path| <= |buf|
    && path == buf[pathStart..pathStart + |path|]
    && ' ' !in path
    && (pathStart + |path| == |buf| || buf[pathStart + |path|] == ' ')
  }

  /** The target is the bytes after the method separator up to the next
      space or the end, undecoded. */
  lemma TargetSpec(buf: string, m: Method)
    requires MethodOf(MethodToken(buf)) == Some(m)
    ensures Parse(buf).request.path.Some? ==>
      TargetAt(buf, |MethodToken(buf)| + 1, Parse(buf).request.path.value)
  {
    MethodFound(buf, m);
    TargetOfParseTarget(buf, m, |MethodToken(buf)| + 1);
  }

  /** The same stated over the step that reads the target. */
  lemma TargetOfParseTarget(buf: string, m: Method, pathStart: nat)
    ensures ParseTarget(buf, m, pathStart).request.path.Some? ==>
      TargetAt(buf, pathStart, ParseTarget(buf, m, pathStart).request.path.value)
  {
    var n := RunLen(buf, pathStart, ' ');
    ParseTargetFields(buf, m, pathStart);
    if n != 0 {
      RunLenSpec(buf, pathStart, ' ');
      var run := buf[pathStart..pathStart + n];
      forall k | 0 <= k < |run| ensures run[k] != ' ' {
        assert run[k] == buf[pathStart + k];
      }
    }
  }

  /** A target that runs to the end of the buffer is not a 400: the cursor
      then steps past the end, nothing remains to compare, and the inverted
      version test answers 505. */
  lemma TargetToEndIsVersionNotSupported(buf: string, m: Method)
    requires MethodOf(MethodToken(buf)) == Some(m)
    requires var pathStart := |MethodToken(buf)| + 1;
      pathStart < |buf| && ' ' !in buf[pathStart..]
    ensures Parse(buf).response == VersionNotSupported
  {
    MethodFound(buf, m);
    var pathStart := |MethodToken(buf)| + 1;
    forall k | pathStart <= k < |buf| ensures buf[k] != ' ' {
      assert buf[k] == buf[pathStart..][k - pathStart];
    }
    RunLenIs(buf, pathStart, ' ', |buf| - pathStart);
    assert Remaining(buf, |buf| + 1) == [];
  }

  /** Agreeing over the shorter length is being a prefix, one way or the other. */
  lemma {:induction false} AgreeIff(a: string, b: string)
    ensures Agree(a, b) <==> a <= b || b <= a
    decreases |a|
  {
    if a != [] && b != [] {
      AgreeIff(a[1..], b[1..]);
      if a[0] == b[0] {
        assert a <= b <==> a[1..] <= b[1..];
        assert b <= a <==> b[1..] <= a[1..];
      }
    }
  }

  /** The version test as written rejects exactly the remainders that are
      a prefix of "HTTP/1.1" with its NUL, or that start with all nine of
      those bytes: the empty remainder, "HTTP/1." and "HTTP/1.1" among them. */
  lemma VersionTestRejectsIff(rest: string)
    ensures VersionTestRejects(rest) <==> rest <= VersionLiteral || VersionLiteral <= rest
  {
    AgreeIff(rest, VersionLiteral);
  }

  /** The inversion seen from a real request line: a CR within the first nine
      remaining bytes makes the test pass, whatever the version says. */
  lemma CrWithinNinePasses(rest: string, k: nat)
    requires k < |rest| && k < |VersionLiteral| && rest[k] == '\r'
    ensures !VersionTestRejects(rest)
  {
    VersionTestRejectsIff(rest);
    assert rest[k] != VersionLiteral[k];
  }

  /** A version field without CR and NUL, followed by the CR LF that ends
      the request line, always passes the test. */
  lemma VersionLinePasses(version: string, rest: string)
    requires '\r' !in version && '\0' !in version
    ensures !VersionTestRejects(version + ("\r\n" + rest))
  {
    var r := version + ("\r\n" + rest);
    if |version| < |VersionLiteral| {
      assert r[|version|] == '\r';
      CrWithinNinePasses(r, |version|);
    } else {
      VersionTestRejectsIff(r);
      var k := |VersionLiteral| - 1;
      assert VersionLiteral[k] == '\0';
      assert r[k] == version[k];
      assert r[k] != '\0';
      assert !(VersionLiteral <= r);
      assert !(r <= VersionLiteral);
    }
  }

  /** The name a client writes for a method. */
  function MethodName(m: Method): (name: string)
    ensures MethodOf(name) == Some(m)
  {
    match m
    case Get => "GET"
    case Head => "HEAD"
  }

  /** A request line as a client writes it, followed by `rest`. */
  function RequestLine(m: Method, target: string, version: string, rest: string): string
  {
    MethodName(m) + (" " + (target + (" " + (version + ("\r\n" + rest)))))
  }

  /** A header line the loop reads back as it was written: a non-empty key
      without ':', and a non-empty value that does not start with optional
      whitespace and holds no CR LF pair. The value may end in whitespace. */
  predicate ReadableHeader(h: Header)
  {
    h.key != [] && ':' !in h.key
    && h.value != [] && !IsOws(h.value[0]) && NoCrlfPair(h.value)
  }

  /** A header as a client writes it: readable, and its key does not start
      with CR LF, so that the line cannot be taken for the blank line. */
  predicate WireHeader(h: Header)
  {
    ReadableHeader(h) && !IsCrlf(h.key, 0)
  }

  /** A run of optional whitespace: spaces and tabs only, possibly none. */
  predicate AllOws(s: string)
  {
    forall j :: 0 <= j < |s| ==> IsOws(s[j])
  }

  /** Every header of a list is one a client writes, each with its own run
      of whitespace after the colon. */
  predicate WireHeaders(hs: seq<Header>, ows: seq<string>)
  {
    |ows| == |hs|
    && (hs == [] || (WireHeader(hs[0]) && AllOws(ows[0]) && WireHeaders(hs[1..], ows[1..])))
  }

  /** A header line as a client writes it, with the whitespace `ows` after
      the colon, followed by `rest`. */
  function HeaderLine(h: Header, ows: string, rest: string): string
  {
    h.key + (":" + (ows + (h.value + ("\r\n" + rest))))
  }

  /** The header lines, the blank line that ends them, and the body. */
  function HeaderSection(hs: seq<Header>, ows: seq<string>, body: string): string
    requires |ows| == |hs|
  {
    if hs == [] then "\r\n" + body
    else HeaderLine(hs[0], ows[0], HeaderSection(hs[1..], ows[1..], body))
  }

  /** The request line of `buf` reads as method `m` and the non-empty
      `target`, which starts at `pathStart`; the version starts at
      `versionStart` and passes the version test, and the header lines
      start at `headerStart`. */
  predicate RequestLineAt(buf: string, m: Method, target: string,
                          pathStart: nat, versionStart: nat, headerStart: nat)
  {
    pathStart == |MethodToken(buf)| + 1 && MethodOf(MethodToken(buf)) == Some(m)
    && target != [] && RunLen(buf, pathStart, ' ') == |target|
    && pathStart + |target| <= |buf| && buf[pathStart..pathStart + |target|] == target
    && versionStart == pathStart + |target| + 1
    && !VersionTestRejects(Remaining(buf, versionStart))
    && headerStart == versionStart + CrlfOffset(buf, versionStart) + 1
  }

  /** A request whose request line has been located: the answer is 200
      with that method and target, and the headers stored from the line
      after it. */
  lemma ParseAccepted(buf: string, m: Method, target: string,
                      pathStart: nat, versionStart: nat, headerStart: nat, headers: seq<Header>)
    requires RequestLineAt(buf, m, target, pathStart, versionStart, headerStart)
    requires HeadersFrom(buf, headerStart) == headers
    ensures Parse(buf) == Parsed(Ok, Request(Some(m), Some(target), headers, None))
  {
    LineAccepted(buf, m, target, pathStart, versionStart, headerStart);
    MethodFound(buf, m);
  }

  /** The same, stated over the step after the method: a target located
      at `pathStart` and a version at `versionStart` that passes the test
      give 200 with that target and the headers stored from `headerStart`. */
  lemma LineAccepted(buf: string, m: Method, target: string, pathStart: nat, versionStart: nat, headerStart: nat)
    requires target != [] && RunLen(buf, pathStart, ' ') == |target|
    requires pathStart + |target| <= |buf| && buf[pathStart..pathStart + |target|] == target
    requires versionStart == pathStart + |target| + 1
    requires !VersionTestRejects(Remaining(buf, versionStart))
    requires headerStart == versionStart + CrlfOffset(buf, versionStart) + 1
    ensures ParseTarget(buf, m, pathStart)
         == Parsed(Ok, Request(Some(m), Some(target), HeadersFrom(buf, headerStart), None))
  {
    TargetStep(buf, m, pathStart, target, versionStart);
    ParseVersionAccepts(buf, m, target, versionStart, headerStart,
                        Request(Some(m), Some(target), HeadersFrom(buf, headerStart), None));
  }

  /** A non-empty target located at `pathStart` is the path the version
      step starts from. */
  lemma TargetStep(buf: string, m: Method, pathStart: nat, target: string, versionStart: nat)
    requires target != [] && RunLen(buf, pathStart, ' ') == |target|
    requires pathStart + |target| <= |buf| && buf[pathStart..pathStart + |target|] == target
    requires versionStart == pathStart + |target| + 1
    ensures ParseTarget(buf, m, pathStart) == ParseVersion(buf, m, target, versionStart)
  {
  }

  /** The method name a client writes, followed by a space, is the method token. */
  lemma MethodNameRead(buf: string, m: Method, post: string)
    requires buf == MethodName(m) + post
    requires post != [] && post[0] == ' '
    ensures MethodToken(buf) == MethodName(m)
  {
    assert buf[0..] == buf;
    RunLenFrom(buf, 0, MethodName(m), post, ' ');
  }

  /** A version without CR or NUL, ended by CR LF, passes the version test,
      and the header section starts after its CR LF. */
  lemma VersionRead(buf: string, pos: nat, version: string, rest: string)
    requires pos <= |buf| && buf[pos..] == version + ("\r\n" + rest)
    requires '\r' !in version && '\0' !in version
    ensures !VersionTestRejects(Remaining(buf, pos))
    ensures pos + CrlfOffset(buf, pos) + 1 == |buf| - |rest|
    ensures buf[|buf| - |rest|..] == rest
  {
    var tail := "\r\n" + rest;
    VersionLinePasses(version, rest);
    NoCrIsNoCrlfPair(version);
    LineLenFrom(buf, pos, version, tail);
    Advance(buf, pos, version, tail);
    Advance(buf, pos + |version|, "\r\n", rest);
  }

  /** Reading a request line a client writes: where the method, the target,
      the version and the header section are, and what the scanners find there. */
  lemma RequestLineRead(buf: string, m: Method, target: string, version: string, rest: string,
                        pathStart: nat, versionStart: nat, headerStart: nat)
    requires buf == RequestLine(m, target, version, rest)
    requires target != [] && ' ' !in target
    requires '\r' !in version && '\0' !in version
    requires pathStart == |MethodName(m)| + 1 && versionStart == pathStart + |target| + 1
    requires headerStart == |buf| - |rest|
    ensures |rest| <= |buf| && buf[headerStart..] == rest
    ensures RequestLineAt(buf, m, target, pathStart, versionStart, headerStart)
  {
    MethodNameRead(buf, m, " " + (target + (" " + (version + ("\r\n" + rest)))));
    RequestLineTarget(buf, m, target, version, rest, pathStart);
    RequestLineVersion(buf, m, target, version, rest, versionStart, headerStart);
    assert |MethodToken(buf)| == |MethodName(m)|;
  }

  /** Where the target of a request line a client writes is found. */
  lemma RequestLineTarget(buf: string, m: Method, target: string, version: string, rest: string,
                          pathStart: nat)
    requires buf == RequestLine(m, target, version, rest)
    requires ' ' !in target
    requires pathStart == |MethodName(m)| + 1
    ensures RunLen(buf, pathStart, ' ') == |target|
    ensures pathStart + |target| <= |buf|
    ensures buf[pathStart..pathStart + |target|] == target
  {
    var name := MethodName(m);
    var afterTarget := " " + (version + ("\r\n" + rest));
    assert buf[|name|..] == " " + (target + afterTarget);
    Advance(buf, |name|, " ", target + afterTarget);
    RunLenFrom(buf, pathStart, target, afterTarget, ' ');
  }

  /** Where the version of a request line a client writes is found, and
      that the version test lets it through. */
  lemma RequestLineVersion(buf: string, m: Method, target: string, version: string, rest: string,
                           versionStart: nat, headerStart: nat)
    requires buf == RequestLine(m, target, version, rest)
    requires '\r' !in version && '\0' !in version
    requires versionStart == |MethodName(m)| + |target| + 2 && headerStart == |buf| - |rest|
    ensures !VersionTestRejects(Remaining(buf, versionStart))
    ensures headerStart == versionStart + CrlfOffset(buf, versionStart) + 1
    ensures buf[headerStart..] == rest
  {
    VersionLocated(buf, m, target, version, rest, versionStart);
    VersionRead(buf, versionStart, version, rest);
  }

  /** Where the version of a request line a client writes starts. */
  lemma VersionLocated(buf: string, m: Method, target: string, version: string, rest: string,
                       versionStart: nat)
    requires buf == RequestLine(m, target, version, rest)
    requires versionStart == |MethodName(m)| + |target| + 2
    ensures versionStart <= |buf|
    ensures buf[versionStart..] == version + ("\r\n" + rest)
  {
    var name := MethodName(m);
    var afterTarget := " " + (version + ("\r\n" + rest));
    assert buf[|name|..] == " " + (target + afterTarget);
    Advance(buf, |name|, " ", target + afterTarget);
    Advance(buf, |name| + 1, target, afterTarget);
    Advance(buf, |name| + |target| + 1, " ", version + ("\r\n" + rest));
  }

  /** A header line that starts with its key does not start with CR LF. */
  lemma NotCrlfAtKey(buf: string, pos: nat, h: Header, ows: string, post: string)
    requires pos <= |buf| && buf[pos..] == HeaderLine(h, ows, post)
    requires WireHeader(h)
    ensures !IsCrlf(buf, pos)
  {
    var r := buf[pos..];
    assert buf[pos] == r[0] == h.key[0];
    if |h.key| == 1 {
      assert buf[pos + 1] == r[1] == ':';
    } else {
      assert buf[pos + 1] == r[1] == h.key[1];
    }
  }

  /** A header line a client writes is read back as its key and its value,
      the value starting after all the whitespace and keeping any whitespace
      it ends in; the next line starts right after its CR LF. */
  lemma FieldAtLine(buf: string, pos: nat, h: Header, ows: string, post: string)
    requires pos <= |buf| && buf[pos..] == HeaderLine(h, ows, post)
    requires ReadableHeader(h) && AllOws(ows)
    ensures FieldAt(buf, pos) == Field(h.key, h.value, |buf| - |post|)
    ensures buf[|buf| - |post|..] == post
  {
    var owsStart := pos + |h.key| + 1;
    var valueStart := owsStart + |ows|;
    var next := |buf| - |post|;
    HeaderKeyRead(buf, pos, owsStart, valueStart, h, ows, post);
    HeaderValueRead(buf, valueStart, h.value, post, next);
    FieldFound(buf, pos, h.key, owsStart, |ows|, valueStart, h.value, next);
  }

  /** The key of a header line a client writes, and the whitespace after its colon. */
  lemma HeaderKeyRead(buf: string, pos: nat, owsStart: nat, valueStart: nat,
                      h: Header, ows: string, post: string)
    requires pos <= |buf| && buf[pos..] == HeaderLine(h, ows, post)
    requires ':' !in h.key && h.value != [] && !IsOws(h.value[0]) && AllOws(ows)
    requires owsStart == pos + |h.key| + 1 && valueStart == owsStart + |ows|
    ensures RunLen(buf, pos, ':') == |h.key|
    ensures pos + |h.key| <= |buf| && buf[pos..pos + |h.key|] == h.key
    ensures OwsRun(buf, owsStart) == |ows|
    ensures valueStart <= |buf| && buf[valueStart..] == h.value + ("\r\n" + post)
  {
    var afterOws := h.value + ("\r\n" + post);
    var afterColon := ows + afterOws;
    var afterKey := ":" + afterColon;
    RunLenFrom(buf, pos, h.key, afterKey, ':');
    Advance(buf, pos, h.key, afterKey);
    Advance(buf, pos + |h.key|, ":", afterColon);
    assert afterOws[0] == h.value[0];
    OwsRunFrom(buf, owsStart, ows, afterOws);
    Advance(buf, owsStart, ows, afterOws);
  }

  /** The value of a header line a client writes, and where the next line starts. */
  lemma HeaderValueRead(buf: string, valueStart: nat, value: string, post: string, next: nat)
    requires valueStart <= |buf| && buf[valueStart..] == value + ("\r\n" + post)
    requires NoCrlfPair(value)
    requires next == |buf| - |post|
    ensures LineLen(buf, valueStart) == |value|
    ensures valueStart + |value| <= |buf| && buf[valueStart..valueStart + |value|] == value
    ensures valueStart + |value| + 2 == next && buf[next..] == post
  {
    var tail := "\r\n" + post;
    LineLenFrom(buf, valueStart, value, tail);
    Located(buf, valueStart, value, tail);
    Advance(buf, valueStart, value, tail);
    Advance(buf, valueStart + |value|, "\r\n", post);
  }

  /** A header line whose key, `n` bytes of whitespace and value are located. */
  lemma FieldFound(buf: string, pos: nat, key: string, owsStart: nat, n: nat,
                   valueStart: nat, value: string, next: nat)
    requires key != [] && RunLen(buf, pos, ':') == |key|
    requires pos + |key| <= |buf| && buf[pos..pos + |key|] == key
    requires owsStart == pos + |key| + 1 && OwsRun(buf, owsStart) == n
    requires valueStart == owsStart + n && value != [] && LineLen(buf, valueStart) == |value|
    requires valueStart + |value| <= |buf| && buf[valueStart..valueStart + |value|] == value
    requires next == valueStart + |value| + 2
    ensures FieldAt(buf, pos) == Field(key, value, next)
  {
  }

  /** One header line that another line follows is stored, ahead of the rest. */
  lemma HeadersStep(buf: string, pos: nat, h: Header, next: nat)
    requires FieldAt(buf, pos) == Field(h.key, h.value, next)
    requires !IsCrlf(buf, next)
    ensures HeadersFrom(buf, pos) == [h] + HeadersFrom(buf, next)
  {
  }

  /** The header line that the blank line follows is not stored. */
  lemma HeadersStop(buf: string, pos: nat, h: Header, next: nat)
    requires FieldAt(buf, pos) == Field(h.key, h.value, next)
    requires IsCrlf(buf, next)
    ensures HeadersFrom(buf, pos) == []
  {
  }

  /** The header section a client writes, ended by the blank line, is read
      back in arrival order, except that the header the blank line follows
      is dropped: the loop breaks on the blank line before it appends. */
  lemma {:induction false} QuirkLastHeaderDropped(buf: string, pos: nat, rest: string, hs: seq<Header>,
                                                  ows: seq<string>, body: string)
    requires pos <= |buf| && buf[pos..] == rest
    requires hs != [] && WireHeaders(hs, ows) && rest == HeaderSection(hs, ows, body)
    ensures HeadersFrom(buf, pos) == hs[..|hs| - 1]
    decreases |hs|
  {
    if |hs| == 1 {
      assert rest == HeaderLine(hs[0], ows[0], "\r\n" + body);
      LastHeaderLine(buf, pos, hs[0], ows[0], body);
    } else {
      var rest', post := HeaderSection(hs[1..], ows[1..], body), HeaderSection(hs[2..], ows[2..], body);
      assert rest == HeaderLine(hs[0], ows[0], rest');
      assert ows[1..][1..] == ows[2..] && hs[1..][1..] == hs[2..];
      assert rest' == HeaderLine(hs[1], ows[1], post);
      var next := |buf| - |rest'|;
      HeaderLineBeforeAnother(buf, pos, next, hs[0], ows[0], hs[1], ows[1], rest', post);
      QuirkLastHeaderDropped(buf, next, rest', hs[1..], ows[1..], body);
      ConsButLast(hs, HeadersFrom(buf, pos), HeadersFrom(buf, next));
    }
  }

  /** The first header put ahead of all but the last of the others is
      all but the last of the list. */
  lemma ConsButLast(hs: seq<Header>, front: seq<Header>, rest: seq<Header>)
    requires |hs| >= 2
    requires front == [hs[0]] + rest && rest == hs[1..][..|hs[1..]| - 1]
    ensures front == hs[..|hs| - 1]
  {
    assert hs[..|hs| - 1] == [hs[0]] + hs[1..][..|hs[1..]| - 1];
  }

  /** The header line the blank line follows is read but not stored. */
  lemma LastHeaderLine(buf: string, pos: nat, h: Header, ows: string, body: string)
    requires pos <= |buf| && buf[pos..] == HeaderLine(h, ows, "\r\n" + body)
    requires ReadableHeader(h) && AllOws(ows)
    ensures HeadersFrom(buf, pos) == []
  {
    var post := "\r\n" + body;
    FieldAtLine(buf, pos, h, ows, post);
    var next := |buf| - |post|;
    assert buf[next..] == post;
    assert buf[next] == buf[next..][0] && buf[next + 1] == buf[next..][1];
    HeadersStop(buf, pos, h, next);
  }

  /** A header line that another header line follows is stored, ahead of
      what is stored from the next line on. */
  lemma HeaderLineBeforeAnother(buf: string, pos: nat, next: nat, h: Header, ows: string,
                                h2: Header, ows2: string, rest: string, post: string)
    requires pos <= |buf| && buf[pos..] == HeaderLine(h, ows, rest) && rest == HeaderLine(h2, ows2, post)
    requires ReadableHeader(h) && AllOws(ows) && WireHeader(h2)
    requires next == |buf| - |rest|
    ensures next <= |buf| && buf[next..] == rest
    ensures HeadersFrom(buf, pos) == [h] + HeadersFrom(buf, next)
  {
    FieldAtLine(buf, pos, h, ows, rest);
    NotCrlfAtKey(buf, next, h2, ows2, post);
    HeadersStep(buf, pos, h, next);
  }

  /** Any request line a client writes is accepted, whatever follows it: the
      answer is 200 with exactly that method and target, and no body. */
  lemma RequestLineAccepted(m: Method, target: string, version: string, rest: string)
    requires target != [] && ' ' !in target
    requires '\r' !in version && '\0' !in version
    ensures var p := Parse(RequestLine(m, target, version, rest));
      p.response == Ok && p.request.httpMethod == Some(m) && p.request.path == Some(target)
      && p.request.body == None
  {
    var buf := RequestLine(m, target, version, rest);
    RequestLineAcceptedAt(buf, m, target, version, rest, |buf| - |rest|);
  }

  /** The same for a buffer known to hold that request line before `rest`,
      with the headers read from the line after it. */
  lemma RequestLineAcceptedAt(buf: string, m: Method, target: string, version: string, rest: string,
                              headerStart: nat)
    requires buf == RequestLine(m, target, version, rest)
    requires target != [] && ' ' !in target
    requires '\r' !in version && '\0' !in version
    requires headerStart == |buf| - |rest|
    ensures headerStart <= |buf| && buf[headerStart..] == rest
    ensures Parse(buf) == Parsed(Ok, Request(Some(m), Some(target), HeadersFrom(buf, headerStart), None))
  {
    var pathStart := |MethodName(m)| + 1;
    var versionStart := pathStart + |target| + 1;
    RequestLineRead(buf, m, target, version, rest, pathStart, versionStart, headerStart);
    ParseAccepted(buf, m, target, pathStart, versionStart, headerStart, HeadersFrom(buf, headerStart));
  }

  /** A well-formed request with header lines: the method and the target
      come back exactly, every header but the last comes back in order,
      and there is no body. */
  lemma ParseWellFormed(m: Method, target: string, version: string, hs: seq<Header>,
                        ows: seq<string>, body: string)
    requires target != [] && ' ' !in target
    requires '\r' !in version && '\0' !in version
    requires hs != [] && WireHeaders(hs, ows)
    ensures Parse(RequestLine(m, target, version, HeaderSection(hs, ows, body)))
         == Parsed(Ok, Request(Some(m), Some(target), hs[..|hs| - 1], None))
  {
    var rest := HeaderSection(hs, ows, body);
    WellFormedAt(RequestLine(m, target, version, rest), m, target, version, rest, hs, ows, body);
  }

  lemma WellFormedAt(buf: string, m: Method, target: string, version: string, rest: string,
                     hs: seq<Header>, ows: seq<string>, body: string)
    requires buf == RequestLine(m, target, version, rest)
    requires target != [] && ' ' !in target
    requires '\r' !in version && '\0' !in version
    requires hs != [] && WireHeaders(hs, ows) && rest == HeaderSection(hs, ows, body)
    ensures Parse(buf) == Parsed(Ok, Request(Some(m), Some(target), hs[..|hs| - 1], None))
  {
    var headerStart := |buf| - |rest|;
    RequestLineAcceptedAt(buf, m, target, version, rest, headerStart);
    QuirkLastHeaderDropped(buf, headerStart, rest, hs, ows, body);
  }

  /** A well-formed request without header lines, whose body holds no ':':
      the method and the target come back exactly, with no headers. */
  lemma ParseNoHeaderLines(m: Method, target: string, version: string, body: string)
    requires target != [] && ' ' !in target
    requires '\r' !in version && '\0' !in version
    requires ':' !in body
    ensures Parse(RequestLine(m, target, version, "\r\n" + body))
         == Parsed(Ok, Request(Some(m), Some(target), [], None))
  {
    var rest := "\r\n" + body;
    var buf := RequestLine(m, target, version, rest);
    var headerStart := |buf| - |rest|;
    RequestLineAcceptedAt(buf, m, target, version, rest, headerStart);
    NoKeyAt(buf, headerStart, rest);
  }

  /** A blank line and then no ':' to the end: the key runs to the end and
      no value follows it, so nothing is stored. */
  lemma NoKeyAt(buf: string, pos: nat, rest: string)
    requires pos <= |buf| && buf[pos..] == rest
    requires rest != [] && ':' !in rest
    ensures HeadersFrom(buf, pos) == []
  {
    assert buf[pos..] == rest + [];
    RunLenFrom(buf, pos, rest, [], ':');
    NoValuePastEnd(buf, pos, |rest|);
  }

  /** A header line with an empty value ends the header list, and with it
      every later header line is discarded, whatever follows; the response
      stays 200 (`ParseVersionCases`). */
  lemma EmptyValueEndsHeaders(buf: string, pos: nat, key: string, ows: string, post: string)
    requires pos <= |buf| && buf[pos..] == key + (":" + (ows + ("\r\n" + post)))
    requires key != [] && ':' !in key && AllOws(ows)
    ensures HeadersFrom(buf, pos) == []
  {
    var afterColon := ows + ("\r\n" + post);
    var owsStart := pos + |key| + 1;
    var valueStart := owsStart + |ows|;
    RunLenFrom(buf, pos, key, ":" + afterColon, ':');
    Advance(buf, pos, key, ":" + afterColon);
    Advance(buf, pos + |key|, ":", afterColon);
    OwsRunFrom(buf, owsStart, ows, "\r\n" + post);
    Advance(buf, owsStart, ows, "\r\n" + post);
    assert buf[valueStart] == '\r' && buf[valueStart + 1] == '\n' by {
      assert buf[valueStart..][0] == '\r' && buf[valueStart..][1] == '\n';
    }
    EmptyValueAt(buf, pos, |key|, owsStart, valueStart);
  }

  /** A key followed by a value that is empty right away stores nothing. */
  lemma EmptyValueAt(buf: string, pos: nat, keyLen: nat, owsStart: nat, valueStart: nat)
    requires keyLen != 0 && RunLen(buf, pos, ':') == keyLen
    requires owsStart == pos + keyLen + 1 && valueStart == owsStart + OwsRun(buf, owsStart)
    requires IsCrlf(buf, valueStart)
    ensures HeadersFrom(buf, pos) == []
  {
    assert LineLen(buf, valueStart) == 0;
    assert FieldAt(buf, pos) == NoField;
  }

  /** With no key at the cursor, at the end of the buffer or on a ':', the
      header list ends there. */
  lemma MissingKeyEndsHeaders(buf: string, pos: nat)
    requires pos >= |buf| || buf[pos] == ':'
    ensures HeadersFrom(buf, pos) == []
  {
    assert RunLen(buf, pos, ':') == 0;
  }

  /** A first header line with an empty value: the request is accepted
      with no header at all, whatever the later lines hold. */
  lemma EmptyValueDiscardsHeaders(m: Method, target: string, version: string,
                                  key: string, ows: string, post: string)
    requires target != [] && ' ' !in target
    requires '\r' !in version && '\0' !in version
    requires key != [] && ':' !in key && AllOws(ows)
    ensures Parse(RequestLine(m, target, version, key + (":" + (ows + ("\r\n" + post)))))
         == Parsed(Ok, Request(Some(m), Some(target), [], None))
  {
    var rest := key + (":" + (ows + ("\r\n" + post)));
    var buf := RequestLine(m, target, version, rest);
    var headerStart := |buf| - |rest|;
    RequestLineAcceptedAt(buf, m, target, version, rest, headerStart);
    EmptyValueEndsHeaders(buf, headerStart, key, ows, post);
  }

  /** A key that runs to the end of the buffer has no value after it. */
  lemma NoValuePastEnd(buf: string, pos: nat, keyLen: nat)
    requires keyLen != 0 && pos + keyLen == |buf| && RunLen(buf, pos, ':') == keyLen
    ensures HeadersFrom(buf, pos) == []
  {
    assert OwsRun(buf, |buf| + 1) == 0;
    assert LineLen(buf, |buf| + 1) == 0;
    assert FieldAt(buf, pos) == NoField;
  }

  /** A value that runs to the end of the buffer without a CR LF pair is
      read to the end. */
  lemma LineToEnd(buf: string, pos: nat, value: string)
    requires pos <= |buf| && buf[pos..] == value && NoCrlfPair(value)
    ensures LineLen(buf, pos) == |value|
  {
    forall k | pos <= k < |buf| ensures !IsCrlf(buf, k) {
      if k + 1 < |buf| {
        assert buf[k] == value[k - pos] && buf[k + 1] == value[k + 1 - pos];
        assert !IsCrlf(value, k - pos);
      }
    }
    LineLenIs(buf, pos, |value|);
  }

  /** Without a header line, the blank line after the request line is not
      seen: the key loop starts on its CR LF, so the key read is CR LF
      followed by every body byte up to the first ':'. Here the value runs
      to the end of the buffer, where the value loop has no end check; the
      bounded reading stops it there and the header is stored. The same
      quirk on input that ends properly is `QuirkBlankLineThenHeader` and
      `QuirkBlankLineSection`. */
  lemma QuirkBlankLineReadAsKey(m: Method, target: string, version: string,
                                key: string, ows: string, value: string)
    requires target != [] && ' ' !in target
    requires '\r' !in version && '\0' !in version
    requires ':' !in key && AllOws(ows)
    requires value != [] && !IsOws(value[0]) && NoCrlfPair(value)
    ensures Parse(RequestLine(m, target, version, "\r\n" + key + (":" + (ows + value)))).request.headers
         == [Header("\r\n" + key, value)]
  {
    var rest := "\r\n" + key + (":" + (ows + value));
    BlankLineReadAsKeyAt(RequestLine(m, target, version, rest), m, target, version, key, ows, value, rest);
  }

  lemma BlankLineReadAsKeyAt(buf: string, m: Method, target: string, version: string,
                             key: string, ows: string, value: string, rest: string)
    requires buf == RequestLine(m, target, version, rest) && rest == "\r\n" + key + (":" + (ows + value))
    requires target != [] && ' ' !in target
    requires '\r' !in version && '\0' !in version
    requires ':' !in key && AllOws(ows)
    requires value != [] && !IsOws(value[0]) && NoCrlfPair(value)
    ensures Parse(buf).request.headers == [Header("\r\n" + key, value)]
  {
    var headerStart := |buf| - |rest|;
    RequestLineAcceptedAt(buf, m, target, version, rest, headerStart);
    LastLineStored(buf, headerStart, Header("\r\n" + key, value), ows, rest);
  }

  /** Without a header line, on a body that ends properly: the key is CR LF
      followed by every byte before the first ':', and since another
      header line follows, that header is stored first, whatever comes
      after the next line. */
  lemma QuirkBlankLineThenHeader(m: Method, target: string, version: string,
                                 key: string, ows: string, value: string,
                                 h2: Header, ows2: string, post: string)
    requires target != [] && ' ' !in target
    requires '\r' !in version && '\0' !in version
    requires ':' !in key && AllOws(ows)
    requires value != [] && !IsOws(value[0]) && NoCrlfPair(value)
    requires WireHeader(h2)
    ensures var headers := Parse(RequestLine(m, target, version,
              "\r\n" + key + (":" + (ows + (value + ("\r\n" + HeaderLine(h2, ows2, post))))))).request.headers;
      headers != [] && headers[0] == Header("\r\n" + key, value)
  {
    var rest := "\r\n" + key + (":" + (ows + (value + ("\r\n" + HeaderLine(h2, ows2, post)))));
    var buf := RequestLine(m, target, version, rest);
    BlankLineThenHeaderAt(buf, m, target, version, key, ows, value, h2, ows2, post, rest);
  }

  lemma BlankLineThenHeaderAt(buf: string, m: Method, target: string, version: string,
                              key: string, ows: string, value: string,
                              h2: Header, ows2: string, post: string, rest: string)
    requires buf == RequestLine(m, target, version, rest)
    requires rest == "\r\n" + key + (":" + (ows + (value + ("\r\n" + HeaderLine(h2, ows2, post)))))
    requires target != [] && ' ' !in target
    requires '\r' !in version && '\0' !in version
    requires ':' !in key && AllOws(ows)
    requires value != [] && !IsOws(value[0]) && NoCrlfPair(value)
    requires WireHeader(h2)
    ensures Parse(buf).request.headers != []
    ensures Parse(buf).request.headers[0] == Header("\r\n" + key, value)
  {
    var headerStart := |buf| - |rest|;
    var h := Header("\r\n" + key, value);
    var line2 := HeaderLine(h2, ows2, post);
    RequestLineAcceptedAt(buf, m, target, version, rest, headerStart);
    assert rest == HeaderLine(h, ows, line2);
    HeaderLineBeforeAnother(buf, headerStart, |buf| - |line2|, h, ows, h2, ows2, line2, post);
  }

  /** Without a header line, a body that is a whole header section: it is
      read like a header section whose first key is prefixed with CR LF,
      so every header but the last comes back, the first with that key.
      With a single header line the blank line follows it and nothing is
      stored. */
  lemma QuirkBlankLineSection(m: Method, target: string, version: string,
                              hs: seq<Header>, ows: seq<string>, body: string)
    requires target != [] && ' ' !in target
    requires '\r' !in version && '\0' !in version
    requires hs != [] && WireHeaders(hs, ows)
    ensures Parse(RequestLine(m, target, version, "\r\n" + HeaderSection(hs, ows, body))).request.headers
         == ([Header("\r\n" + hs[0].key, hs[0].value)] + hs[1..])[..|hs| - 1]
  {
    var rest := "\r\n" + HeaderSection(hs, ows, body);
    var buf := RequestLine(m, target, version, rest);
    var headerStart := |buf| - |rest|;
    RequestLineAcceptedAt(buf, m, target, version, rest, headerStart);
    BlankLineSectionAt(buf, headerStart, hs, ows, body);
  }

  /** The header loop on CR LF and a header section. */
  lemma BlankLineSectionAt(buf: string, pos: nat, hs: seq<Header>, ows: seq<string>, body: string)
    requires hs != [] && WireHeaders(hs, ows)
    requires pos <= |buf| && buf[pos..] == "\r\n" + HeaderSection(hs, ows, body)
    ensures HeadersFrom(buf, pos) == ([Header("\r\n" + hs[0].key, hs[0].value)] + hs[1..])[..|hs| - 1]
  {
    var h := Header("\r\n" + hs[0].key, hs[0].value);
    var rest' := HeaderSection(hs[1..], ows[1..], body);
    assert buf[pos..] == HeaderLine(h, ows[0], rest');
    if |hs| == 1 {
      LastHeaderLine(buf, pos, h, ows[0], body);
    } else {
      var post := HeaderSection(hs[2..], ows[2..], body);
      assert ows[1..][1..] == ows[2..] && hs[1..][1..] == hs[2..];
      assert rest' == HeaderLine(hs[1], ows[1], post);
      var next := |buf| - |rest'|;
      HeaderLineBeforeAnother(buf, pos, next, h, ows[0], hs[1], ows[1], rest', post);
      QuirkLastHeaderDropped(buf, next, rest', hs[1..], ows[1..], body);
      ConsButLast([h] + hs[1..], HeadersFrom(buf, pos), HeadersFrom(buf, next));
    }
  }

  /** A header line whose value runs to the end of the buffer is stored. */
  lemma LastLineStored(buf: string, pos: nat, h: Header, ows: string, rest: string)
    requires pos <= |buf| && buf[pos..] == rest
    requires rest == h.key + (":" + (ows + h.value))
    requires h.key != [] && ':' !in h.key && AllOws(ows)
    requires h.value != [] && !IsOws(h.value[0]) && NoCrlfPair(h.value)
    ensures HeadersFrom(buf, pos) == [h]
  {
    var end := |buf| + 2;
    FieldToEnd(buf, pos, h, ows);
    assert FieldAt(buf, pos) == Field(h.key, h.value, end);
    assert !IsCrlf(buf, end);
    assert FieldAt(buf, end) == NoField;
    assert HeadersFrom(buf, end) == [];
  }

  /** A header line whose value runs to the end of the buffer is read as
      that key and that value. */
  lemma FieldToEnd(buf: string, pos: nat, h: Header, ows: string)
    requires pos <= |buf| && buf[pos..] == h.key + (":" + (ows + h.value))
    requires h.key != [] && ':' !in h.key && AllOws(ows)
    requires h.value != [] && !IsOws(h.value[0]) && NoCrlfPair(h.value)
    ensures FieldAt(buf, pos) == Field(h.key, h.value, |buf| + 2)
  {
    var owsStart := pos + |h.key| + 1;
    var valueStart := owsStart + |ows|;
    var end := |buf| + 2;
    KeyToValue(buf, pos, owsStart, valueStart, h, ows);
    LineToEnd(buf, valueStart, h.value);
    assert buf[valueStart..valueStart + |h.value|] == h.value by {
      assert buf[valueStart..] == h.value;
      assert valueStart + |h.value| == |buf|;
    }
    FieldFound(buf, pos, h.key, owsStart, |ows|, valueStart, h.value, end);
  }

  /** The key of a line `key:ows value`, and where its value starts. */
  lemma KeyToValue(buf: string, pos: nat, owsStart: nat, valueStart: nat, h: Header, ows: string)
    requires pos <= |buf| && buf[pos..] == h.key + (":" + (ows + h.value))
    requires ':' !in h.key && AllOws(ows)
    requires h.value != [] && !IsOws(h.value[0])
    requires owsStart == pos + |h.key| + 1 && valueStart == owsStart + |ows|
    ensures RunLen(buf, pos, ':') == |h.key|
    ensures pos + |h.key| <= |buf| && buf[pos..pos + |h.key|] == h.key
    ensures OwsRun(buf, owsStart) == |ows|
    ensures valueStart <= |buf| && buf[valueStart..] == h.value
  {
    var afterColon := ows + h.value;
    RunLenFrom(buf, pos, h.key, ":" + afterColon, ':');
    Advance(buf, pos, h.key, ":" + afterColon);
    Advance(buf, pos + |h.key|, ":", afterColon);
    OwsRunFrom(buf, owsStart, ows, h.value);
    Advance(buf, owsStart, ows, h.value);
  }

  /** Two header lines, the second with two spaces before its value and two
      after it: its value would keep the trailing two, but only the first
      line is stored. */
  lemma ExampleLastHeaderDropped(body: string)
    ensures Parse(RequestLine(Get, "/", "HTTP/1.1",
                  HeaderSection([Header("Host", "example.com"), Header("X-Test", "value  ")], [" ", "  "], body)))
         .request.headers == [Header("Host", "example.com")]
  {
    var hs := [Header("Host", "example.com"), Header("X-Test", "value  ")];
    var ows := [" ", "  "];
    assert WireHeaders(hs[1..], ows[1..]) by {
      assert NoCrlfPair("value  ");
      assert hs[1..][1..] == [] && ows[1..][1..] == [];
    }
    assert WireHeaders(hs, ows) by {
      assert NoCrlfPair("example.com");
    }
    ParseWellFormed(Get, "/", "HTTP/1.1", hs, ows, body);
  }

  /** "GET / HTTP/1.1", CR LF and the blank line: 200 with no headers. */
  lemma ExampleNoHeaders()
    ensures Parse(RequestLine(Get, "/", "HTTP/1.1", "\r\n"))
         == Parsed(Ok, Request(Some(Get), Some("/"), [], None))
  {
    ParseNoHeaderLines(Get, "/", "HTTP/1.1", "");
    assert "\r\n" + "" == "\r\n";
  }
}
