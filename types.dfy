/** The records of webserver.h that the parser, the resolver and the
    serializer exchange, and the two configuration fields they read.
    Throughout the model a `char` stands for one byte of the wire or of a
    file, and a `string` for a run of such bytes. */
module Types {

  datatype Option<T> = None | Some(value: T)

  /** enum Method: the server implements exactly these two methods. */
  datatype Method = Get | Head

  /** struct Header: a key and a value, both kept as the bytes that arrived. */
  datatype Header = Header(key: string, value: string)

  /** struct Request, as the parser leaves it. `httpMethod` and `path` are None
      where the parser returned before writing them; `headers` (with its
      length) and `body` are written before any input is read. */
  datatype Request = Request(
    httpMethod: Option<Method>,
    path: Option<string>,
    headers: seq<Header>,
    body: Option<string>)

  /** struct Response: a status code and a reason phrase, nothing else.
      The response headers are derived when the response is sent. */
  datatype Response = Response(statusCode: nat, reasonPhrase: string)

  /** The root_dir and root_file fields of struct Webserver. */
  datatype Webserver = Webserver(rootDir: string, rootFile: string)

  const Ok := Response(200, "OK")
  const BadRequest := Response(400, "Bad Request")
  const NotFound := Response(404, "Not Found")
  const NotImplemented := Response(501, "Not Implemented")
  const VersionNotSupported := Response(505, "HTTP Version Not Supported")

  function Min(a: int, b: int): int { if a <= b then a else b }

  /** The C string that a NUL-terminated buffer holding `s` denotes: the
      bytes of `s` before its first NUL (what strlen, strcmp and strrchr see). */
  function CStr(s: string): (r: string)
    ensures |r| <= |s|
  {
    if s == [] || s[0] == '\0' then [] else [s[0]] + CStr(s[1..])
  }

  /** The C string is the longest NUL-free prefix: it ends where the first
      NUL is, or at the end of the buffer. */
  lemma {:induction false} CStrSpec(s: string)
    ensures CStr(s) <= s
    ensures '\0' !in CStr(s)
    ensures |CStr(s)| < |s| ==> s[|CStr(s)|] == '\0'
  {
    if s != [] && s[0] != '\0' {
      CStrSpec(s[1..]);
    }
  }

  /** A buffer without an interior NUL is its own C string. */
  lemma CStrOfNulFree(s: string)
    requires '\0' !in s
    ensures CStr(s) == s
  {
  }
}
