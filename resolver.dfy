/** Static-resource resolution in webserver.c: the root_dir check of
    webserver_new, the path that handle_request builds from the request
    path, and the content type get_content_type derives from it.

    The configuration strings are held as the bytes of their C strings,
    without the terminating NUL. */
module Resolver {
  import opened Types

  /** The separator that root_dir must end in and that a request path may
      start with. */
  const Separator: char := '/'

  /** Whether a string ends in the separator. */
  predicate EndsInSeparator(s: string)
  {
    EndsWith(s, [Separator])
  }

  /** Ending in the separator is a test of the last byte alone, as
      `root_dir[strlen(root_dir) - 1]` reads it. */
  lemma EndsInSeparatorIsLastByte(s: string)
    ensures EndsInSeparator(s) <==> s != [] && s[|s| - 1] == Separator
  {
    if s != [] {
      assert s[|s| - 1..] == [s[|s| - 1]];
    }
  }

  /** webserver_new, as far as it concerns the root: the configuration is
      refused (the function returns 1, None here) unless root_dir ends in a
      slash, before any socket is opened; otherwise the two names are kept
      as given. An empty root_dir, whose last byte C would read before the
      string, is refused as well. */
  function WebserverNew(rootDir: string, rootFile: string): (r: Option<Webserver>)
    ensures r.Some? ==> r.value.rootDir == rootDir && r.value.rootFile == rootFile
  {
    if EndsInSeparator(rootDir) then Some(Webserver(rootDir, rootFile)) else None
  }

  /** The return value of webserver_new: 1 for failure, 0 for success. */
  function NewStatus(rootDir: string, rootFile: string): (code: nat)
    ensures code == 0 || code == 1
    ensures code == 0 <==> rootDir != [] && rootDir[|rootDir| - 1] == '/'
  {
    if WebserverNew(rootDir, rootFile).Some? then 0 else 1
  }

  /** The request path as handle_request uses it: the C string the parsed
      path holds, with one leading separator dropped. */
  function RequestPath(path: string): (p: string)
    ensures '\0' !in p
    ensures |p| <= |path|
  {
    var s := CStr(path);
    CStrSpec(path);
    if s != [] && s[0] == Separator then s[1..] else s
  }

  /** Exactly one leading separator goes: what follows it, further
      separators included, is kept. */
  lemma RequestPathDropsOne(path: string)
    requires '\0' !in path
    ensures path != [] && path[0] == Separator ==> RequestPath(path) == path[1..]
    ensures (path == [] || path[0] != Separator) ==> RequestPath(path) == path
  {
    CStrOfNulFree(path);
  }

  /** The file path handle_request opens for the request path `p` (already
      without its leading separator): root_dir followed by `p`; root_file
      instead of nothing when that is just root_dir; then one trailing
      separator stripped. The strip applies after a root_file substitution
      too. */
  function ResolvePath(ws: Webserver, p: string): string
  {
    var joined := ws.rootDir + p;
    var full := if joined == ws.rootDir then joined + ws.rootFile else joined;
    if EndsInSeparator(full) then full[..|full| - 1] else full
  }

  /** What resolution promises: the path named is root_dir followed by the
      request path, or by root_file when the request path is empty; the
      result is that path, or that path with exactly one trailing separator
      removed, and it is not left ending in the separator unless the named
      path ended in two. */
  lemma ResolvePathSpec(ws: Webserver, p: string)
    ensures var named := ws.rootDir + (if p == [] then ws.rootFile else p);
      var r := ResolvePath(ws, p);
      (r == named && !EndsInSeparator(named))
      || (r + [Separator] == named && EndsInSeparator(named))
  {
    var joined := ws.rootDir + p;
    if p == [] {
      assert joined == ws.rootDir;
    } else {
      assert |joined| > |ws.rootDir|;
    }
    var named := ws.rootDir + (if p == [] then ws.rootFile else p);
    var r := ResolvePath(ws, p);
    if EndsInSeparator(named) {
      assert r + [Separator] == named;
    }
  }

  /** With a configuration webserver_new accepts and a non-empty root_file,
      every resolved path lies under root_dir: root_dir, slash included, is
      a prefix of it. */
  lemma ResolvedUnderRoot(ws: Webserver, p: string)
    requires WebserverNew(ws.rootDir, ws.rootFile) == Some(ws)
    requires ws.rootFile != []
    ensures ws.rootDir <= ResolvePath(ws, p)
  {
    ResolvePathSpec(ws, p);
    var named := ws.rootDir + (if p == [] then ws.rootFile else p);
    assert ws.rootDir <= named;
    if EndsInSeparator(named) {
      assert |named| > |ws.rootDir|;
      assert ResolvePath(ws, p) == named[..|named| - 1];
    }
  }

  /** The file path handle_request opens for a parsed request path. */
  function FilePath(ws: Webserver, path: string): string
  {
    ResolvePath(ws, RequestPath(path))
  }

  /** A request for "/" opens root_file in root_dir. */
  lemma FilePathOfRoot(ws: Webserver)
    requires !EndsInSeparator(ws.rootDir + ws.rootFile)
    ensures FilePath(ws, [Separator]) == ws.rootDir + ws.rootFile
  {
    RequestPathDropsOne([Separator]);
    assert ws.rootDir + [] == ws.rootDir;
  }

  /** A request for "/" and a name opens that name in root_dir. */
  lemma FilePathOfName(ws: Webserver, name: string)
    requires name != [] && '\0' !in name && !EndsInSeparator(name)
    ensures FilePath(ws, [Separator] + name) == ws.rootDir + name
  {
    RequestPathDropsOne([Separator] + name);
    assert ([Separator] + name)[1..] == name;
    assert |ws.rootDir + name| != |ws.rootDir|;
    assert (ws.rootDir + name)[|ws.rootDir + name| - 1] == name[|name| - 1];
  }

  /** A request for "/" and a name and "/" opens that name in root_dir:
      the trailing separator is cut off. */
  lemma FilePathOfDirectory(ws: Webserver, name: string)
    requires '\0' !in name
    ensures FilePath(ws, [Separator] + name + [Separator]) == ws.rootDir + name
  {
    var path := [Separator] + name + [Separator];
    RequestPathDropsOne(path);
    assert path[1..] == name + [Separator];
    var joined := ws.rootDir + (name + [Separator]);
    assert |joined| != |ws.rootDir|;
    assert joined[..|joined| - 1] == ws.rootDir + name;
  }

  /** The configuration strings are C strings: no NUL inside them. */
  predicate CStrings(ws: Webserver)
  {
    '\0' !in ws.rootDir && '\0' !in ws.rootFile
  }

  /** The buffer `a` holds the C string `s`: its bytes, then only NULs. */
  ghost predicate Holds(a: array<char>, s: string)
    reads a
  {
    |s| < a.Length && a[..|s|] == s && forall j :: |s| <= j < a.Length ==> a[j] == '\0'
  }

  /** memcpy of `src` to `a` at `at`: those bytes are replaced, no others. */
  method CopyInto(a: array<char>, at: nat, src: string)
    requires at + |src| <= a.Length
    modifies a
    ensures forall j :: 0 <= j < a.Length ==>
      a[j] == if at <= j < at + |src| then src[j - at] else old(a[j])
  {
    var i := 0;
    while i < |src|
      invariant i <= |src|
      invariant forall j :: 0 <= j < a.Length ==>
        a[j] == if at <= j < at + i then src[j - at] else old(a[j])
    {
      a[at + i] := src[i];
      i := i + 1;
    }
  }

  /** strlen: the number of bytes before the first NUL. */
  method Strlen(a: array<char>) returns (n: nat)
    requires exists j :: 0 <= j < a.Length && a[j] == '\0'
    ensures n < a.Length && a[n] == '\0'
    ensures forall j :: 0 <= j < n ==> a[j] != '\0'
  {
    n := 0;
    while a[n] != '\0'
      invariant n < a.Length
      invariant forall j :: 0 <= j < n ==> a[j] != '\0'
      invariant exists j :: n <= j < a.Length && a[j] == '\0'
      decreases a.Length - n
    {
      n := n + 1;
    }
  }

  /** strlen of a buffer that holds `s`, NUL-free, is |s|. */
  lemma StrlenOfHolds(a: array<char>, s: string, n: nat)
    requires Holds(a, s) && '\0' !in s
    requires n < a.Length && a[n] == '\0' && forall j :: 0 <= j < n ==> a[j] != '\0'
    ensures n == |s|
  {
    forall j | 0 <= j < |s| ensures a[j] != '\0' {
      assert a[j] == a[..|s|][j] == s[j];
    }
    assert a[|s|] == '\0';
  }

  /** memcpy of `t` over the NUL that ends the C string `s` in `a`, where
      the buffer has room for it and a NUL after it: `a` then holds s + t. */
  method CopyAfter(a: array<char>, at: nat, t: string, ghost s: string)
    requires Holds(a, s) && at == |s| && |s| + |t| < a.Length
    modifies a
    ensures Holds(a, s + t)
  {
    ghost var before := a[..];
    CopyInto(a, at, t);
    forall j | 0 <= j < |s + t| ensures a[j] == (s + t)[j] {
      if j < |s| {
        assert a[j] == before[j] == before[..|s|][j];
      }
    }
  }

  /** strlen of a buffer that holds a NUL-free `s`. */
  method StrlenOf(a: array<char>, ghost s: string) returns (n: nat)
    requires Holds(a, s) && '\0' !in s
    ensures n == |s|
  {
    assert a[|s|] == '\0';
    n := Strlen(a);
    StrlenOfHolds(a, s, n);
  }

  /** The first steps of the path building: a buffer with room for
      root_dir, the request path, root_file and a NUL, root_dir and the
      request path copied in, and a NUL written at path_len. */
  method JoinPath(ws: Webserver, requestPath: string) returns (buf: array<char>)
    ensures fresh(buf) && buf.Length == |ws.rootDir| + |requestPath| + |ws.rootFile| + 1
    ensures Holds(buf, ws.rootDir + requestPath)
  {
    var dirLen := |ws.rootDir|;
    var pathLen := dirLen + |requestPath|;
    buf := new char[pathLen + |ws.rootFile| + 1](_ => '\0');
    assert buf[..0] == [];
    CopyAfter(buf, 0, ws.rootDir, []);
    assert [] + ws.rootDir == ws.rootDir;
    CopyAfter(buf, dirLen, requestPath, ws.rootDir);
    buf[pathLen] := '\0';
  }

  /** The last step: a separator that ends the C string is overwritten by a NUL. */
  method CutSeparator(buf: array<char>, ghost s: string)
    requires Holds(buf, s) && '\0' !in s
    modifies buf
    ensures Holds(buf, if EndsInSeparator(s) then s[..|s| - 1] else s)
  {
    var n := StrlenOf(buf, s);
    if n > 0 && buf[n - 1] == Separator {
      assert buf[n - 1] == buf[..n][n - 1];
      buf[n - 1] := '\0';
      assert buf[..n - 1] == old(buf[..n - 1]) == s[..n - 1];
    }
  }

  /** The path building of handle_request, on a buffer: root_dir copied in,
      the request path after it, a NUL at path_len; root_file copied over
      that NUL when the C string equals root_dir; then a trailing separator
      cut off by writing a NUL over it. The C string left in the buffer,
      the bytes before the first NUL, is `ResolvePath`. The buffer is sized
      for root_file and a NUL, and reads as NUL past the bytes written. */
  method BuildPath(ws: Webserver, requestPath: string) returns (path: string)
    requires CStrings(ws) && '\0' !in requestPath
    ensures path == ResolvePath(ws, requestPath)
  {
    var buf := JoinPath(ws, requestPath);
    var pathLen := |ws.rootDir| + |requestPath|;
    ghost var full := ws.rootDir + requestPath;
    var n := StrlenOf(buf, full);
    // strcmp(path, root_dir) == 0
    if buf[..n] == ws.rootDir {
      CopyAfter(buf, pathLen, ws.rootFile, full);
      pathLen := pathLen + |ws.rootFile|;
      full := full + ws.rootFile;
    }
    CutSeparator(buf, full);
    ghost var cut := if EndsInSeparator(full) then full[..|full| - 1] else full;
    n := StrlenOf(buf, cut);
    path := buf[..n];
  }

  /** strrchr: the index of the last `c` in `s`, if there is one. */
  function LastIndexOf(s: string, c: char): (r: Option<nat>)
    ensures r.Some? ==> r.value < |s| && s[r.value] == c && c !in s[r.value + 1..]
    ensures r.None? ==> c !in s
  {
    if s == [] then None
    else if s[|s| - 1] == c then Some(|s| - 1)
    else
      var r := LastIndexOf(s[..|s| - 1], c);
      assert r.Some? ==> s[r.value + 1..] == s[..|s| - 1][r.value + 1..] + [s[|s| - 1]];
      assert s == s[..|s| - 1] + [s[|s| - 1]];
      r
  }

  /** The last `c` in `s` is the one with no other `c` after it. */
  lemma LastIndexOfIs(s: string, c: char, k: nat)
    requires k < |s| && s[k] == c && c !in s[k + 1..]
    ensures LastIndexOf(s, c) == Some(k)
  {
  }

  /** get_content_type: the text from the last '.' to the end, compared
      exactly and case-sensitively with the known extensions; no '.' or an
      unknown extension gives no content type. */
  function GetContentType(path: string): Option<string>
  {
    match LastIndexOf(path, '.')
    case None => None
    case Some(i) =>
      var extension := path[i..];
      if extension == ".html" then Some("text/html")
      else if extension == ".css" then Some("text/css")
      else if extension == ".ico" then Some("image/x-icon")
      else if extension == ".otf" then Some("font/otf")
      else if extension == ".js" then Some("text/javascript")
      else if extension == ".png" then Some("image/png")
      else None
  }

  /** Whether `s` ends with `suffix`. */
  predicate EndsWith(s: string, suffix: string)
  {
    |suffix| <= |s| && s[|s| - |suffix|..] == suffix
  }

  /** A reference reading of the mapping that does not look for the last
      '.': the type of the known extension the path ends with. */
  function TypeBySuffix(path: string): Option<string>
  {
    if EndsWith(path, ".html") then Some("text/html")
    else if EndsWith(path, ".css") then Some("text/css")
    else if EndsWith(path, ".ico") then Some("image/x-icon")
    else if EndsWith(path, ".otf") then Some("font/otf")
    else if EndsWith(path, ".js") then Some("text/javascript")
    else if EndsWith(path, ".png") then Some("image/png")
    else None
  }

  /** A string whose only '.' is its first byte. */
  predicate OneLeadingDot(extension: string)
  {
    extension != [] && extension[0] == '.' && '.' !in extension[1..]
  }

  /** For an extension with one leading '.', ending with it and having it as
      the text from the last '.' on are the same thing. */
  lemma ExtensionAtLastDot(path: string, extension: string)
    requires OneLeadingDot(extension)
    ensures EndsWith(path, extension)
        <==> LastIndexOf(path, '.').Some? && path[LastIndexOf(path, '.').value..] == extension
  {
    if EndsWith(path, extension) {
      var k := |path| - |extension|;
      assert path[k] == extension[0];
      assert path[k + 1..] == extension[1..];
      LastIndexOfIs(path, '.', k);
    }
  }

  /** get_content_type agrees with the suffix reading: the type depends on
      nothing but the known extension the path ends with. */
  lemma ContentTypeBySuffix(path: string)
    ensures GetContentType(path) == TypeBySuffix(path)
  {
    ExtensionAtLastDot(path, ".html");
    ExtensionAtLastDot(path, ".css");
    ExtensionAtLastDot(path, ".ico");
    ExtensionAtLastDot(path, ".otf");
    ExtensionAtLastDot(path, ".js");
    ExtensionAtLastDot(path, ".png");
  }

  /** Only the text after the last '.' matters: whatever comes before a
      part that holds a '.' does not change the content type. */
  lemma ContentTypeOfLastPart(front: string, back: string)
    requires '.' in back
    ensures GetContentType(front + back) == GetContentType(back)
  {
    var i := LastIndexOf(back, '.').value;
    var s := front + back;
    assert s[|front| + i] == '.';
    assert s[|front| + i + 1..] == back[i + 1..];
    LastIndexOfIs(s, '.', |front| + i);
    assert s[|front| + i..] == back[i..];
  }
}
