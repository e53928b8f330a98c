/** send_response of webserver.c: the status line, the Content-Type and
    Content-Length header lines, the blank line and the raw body, written
    one after another to the connection.

    The connection is abstracted as the bytes it has accepted so far (the
    "wire") and `failAt`, the position of the first write it refuses, if
    any. `Writes` is the specification: the pieces send_response writes, in
    order. `SendResponse` makes the writes and stops at the first refusal. */
module Serializer {
  import opened Types

  const Crlf: string := "\r\n"

  /** A decimal digit. */
  predicate IsDigit(c: char) { '0' <= c <= '9' }

  /** A string of decimal digits. */
  predicate AllDigits(s: string) { forall i :: 0 <= i < |s| ==> IsDigit(s[i]) }

  /** The character of a digit value. */
  function DigitChar(d: nat): (c: char)
    requires d < 10
    ensures IsDigit(c) && (c as int) - ('0' as int) == d
  {
    (('0' as int) + d) as char
  }

  /** How %d and %ld print a non-negative number: its decimal digits, the
      first of them a zero only for zero itself. */
  function Decimal(n: nat): (s: string)
    ensures s != [] && AllDigits(s)
    ensures n == 0 <==> s[0] == '0'
    decreases n
  {
    if n < 10 then [DigitChar(n)] else Decimal(n / 10) + [DigitChar(n % 10)]
  }

  /** The value of a digit; any other byte counts as zero. */
  function DigitValue(c: char): (d: nat)
    ensures d < 10
  {
    if IsDigit(c) then (c as int) - ('0' as int) else 0
  }

  /** The number a string of decimal digits denotes. */
  function DecimalValue(s: string): nat
  {
    if s == [] then 0 else 10 * DecimalValue(s[..|s| - 1]) + DigitValue(s[|s| - 1])
  }

  /** Reading the printed digits back gives the number printed. */
  lemma {:induction false} DecimalRoundTrip(n: nat)
    ensures DecimalValue(Decimal(n)) == n
    decreases n
  {
    if n >= 10 {
      var s := Decimal(n);
      assert s[..|s| - 1] == Decimal(n / 10);
      DecimalRoundTrip(n / 10);
    }
  }

  /** The status line: the version, the code, the reason phrase, CR LF. */
  function StatusLine(response: Response): string
  {
    "HTTP/1.1 " + Decimal(response.statusCode) + " " + response.reasonPhrase + Crlf
  }

  function ContentTypeLine(contentType: string): string
  {
    "Content-Type: " + contentType + Crlf
  }

  function ContentLengthLine(length: nat): string
  {
    "Content-Length: " + Decimal(length) + Crlf
  }

  /** body_len: what the handler passes with a body, zero without one. It is
      taken before HEAD drops the body. */
  function BodyLen(body: Option<string>): nat
  {
    if body.Some? then |body.value| else 0
  }

  /** The first writes of send_response: the status line, the Content-Type
      line when there is a type, the Content-Length line when body_len is
      not zero. */
  function HeaderWrites(response: Response, contentType: Option<string>, bodyLen: nat): seq<string>
  {
    [StatusLine(response)]
    + (if contentType.Some? then [ContentTypeLine(contentType.value)] else [])
    + (if bodyLen != 0 then [ContentLengthLine(bodyLen)] else [])
  }

  /** The writes send_response makes, in order, when each succeeds: the
      header writes, then the blank line and the body when there is one.
      HEAD drops the body and the content type first, but not body_len. */
  function Writes(m: Method, response: Response, body: Option<string>,
                  contentType: Option<string>): seq<string>
  {
    var entity := if m == Head then None else body;
    var cType := if m == Head then None else contentType;
    HeaderWrites(response, cType, BodyLen(body))
    + (if entity.Some? then [Crlf, entity.value] else [])
  }

  /** The bytes of a sequence of writes, one after the other. */
  function Concat(writes: seq<string>): string
  {
    if writes == [] then [] else writes[0] + Concat(writes[1..])
  }

  lemma {:induction false} ConcatAppend(a: seq<string>, b: seq<string>)
    ensures Concat(a + b) == Concat(a) + Concat(b)
    decreases |a|
  {
    if a != [] {
      assert (a + b)[1..] == a[1..] + b;
      ConcatAppend(a[1..], b);
    } else {
      assert a + b == b;
    }
  }

  lemma ConcatOne(x: string)
    ensures Concat([x]) == x
  {
    assert [x][1..] == [];
  }

  /** The bytes a response puts on the wire when every write succeeds. */
  function Message(m: Method, response: Response, body: Option<string>,
                   contentType: Option<string>): string
  {
    Concat(Writes(m, response, body, contentType))
  }

  /** What the connection holds after a sequence of writes, and whether they
      all succeeded: the writes before the first refused one, if any. */
  datatype Sent = Sent(wire: string, ok: bool)

  function Transmit(writes: seq<string>, failAt: Option<nat>): Sent
  {
    if failAt.Some? && failAt.value < |writes| then Sent(Concat(writes[..failAt.value]), false)
    else Sent(Concat(writes), true)
  }

  /** A refused write leaves a prefix of the message on the wire and
      reports failure; only when no write is refused is the whole message
      sent. */
  lemma TransmitPrefix(writes: seq<string>, failAt: Option<nat>)
    ensures Transmit(writes, failAt).wire <= Concat(writes)
    ensures Transmit(writes, failAt).ok <==> failAt.None? || failAt.value >= |writes|
    ensures Transmit(writes, failAt).ok ==> Transmit(writes, failAt).wire == Concat(writes)
  {
    if failAt.Some? && failAt.value < |writes| {
      assert writes == writes[..failAt.value] + writes[failAt.value..];
      ConcatAppend(writes[..failAt.value], writes[failAt.value..]);
    }
  }

  /** A write refused after the writes `done`, with `rest` still to come,
      leaves exactly `done` on the wire. */
  lemma RefusedAfter(done: seq<string>, rest: seq<string>, failAt: Option<nat>)
    requires failAt == Some(|done|) && rest != []
    ensures Transmit(done + rest, failAt) == Sent(Concat(done), false)
  {
    assert (done + rest)[..|done|] == done;
  }

  /** A write accepted after the writes `done` appends its bytes. */
  lemma AcceptedAfter(done: seq<string>, data: string)
    ensures Concat(done + [data]) == Concat(done) + data
  {
    ConcatAppend(done, [data]);
    ConcatOne(data);
  }

  /** Writes refused before the end of `a` never reach `b`. */
  lemma RefusedWithin(a: seq<string>, b: seq<string>, failAt: Option<nat>)
    requires failAt.Some? && failAt.value < |a|
    ensures Transmit(a + b, failAt) == Transmit(a, failAt)
  {
    assert (a + b)[..failAt.value] == a[..failAt.value];
  }

  /** The status line and the header lines of send_response, written one by
      one; `count` is the number of writes made. */
  method WriteHeaderLines(response: Response, contentType: Option<string>, bodyLen: nat,
                          failAt: Option<nat>)
    returns (wire: string, count: nat, ok: bool)
    ensures Sent(wire, ok) == Transmit(HeaderWrites(response, contentType, bodyLen), failAt)
    ensures ok ==> count == |HeaderWrites(response, contentType, bodyLen)|
  {
    ghost var status := [StatusLine(response)];
    ghost var typeLine := if contentType.Some? then [ContentTypeLine(contentType.value)] else [];
    ghost var lengthLine := if bodyLen != 0 then [ContentLengthLine(bodyLen)] else [];
    ghost var all := status + typeLine + lengthLine;

    wire, count := [], 0;
    if failAt == Some(count) {
      RefusedAfter([], all, failAt);
      assert [] + all == all;
      return wire, count, false;
    }
    wire, count := wire + StatusLine(response), count + 1;
    AcceptedAfter([], StatusLine(response));
    assert [] + status == status;

    if contentType.Some? {
      var line := ContentTypeLine(contentType.value);
      if failAt == Some(count) {
        RefusedAfter(status, typeLine + lengthLine, failAt);
        assert status + (typeLine + lengthLine) == all;
        return wire, count, false;
      }
      wire, count := wire + line, count + 1;
      AcceptedAfter(status, line);
    }
    assert wire == Concat(status + typeLine) && count == |status + typeLine|;

    if bodyLen != 0 {
      var line := ContentLengthLine(bodyLen);
      if failAt == Some(count) {
        RefusedAfter(status + typeLine, lengthLine, failAt);
        return wire, count, false;
      }
      wire, count := wire + line, count + 1;
      AcceptedAfter(status + typeLine, line);
    } else {
      assert status + typeLine + lengthLine == status + typeLine;
    }
    assert all == HeaderWrites(response, contentType, bodyLen);
    ok := true;
  }

  /** send_response: HEAD drops the body and the content type; then the
      writes are made one by one, each appended to the wire, and -1 (ok
      false) is returned at the first one the connection refuses. */
  method SendResponse(m: Method, response: Response, body: Option<string>,
                      contentType: Option<string>, failAt: Option<nat>)
    returns (wire: string, ok: bool)
    ensures Sent(wire, ok) == Transmit(Writes(m, response, body, contentType), failAt)
  {
    var bodyLen := BodyLen(body);
    var entity, cType := body, contentType;
    if m == Head {
      entity, cType := None, None;
    }
    ghost var head := HeaderWrites(response, cType, bodyLen);
    ghost var entityWrites := if entity.Some? then [Crlf, entity.value] else [];
    assert Writes(m, response, body, contentType) == head + entityWrites;

    var count;
    wire, count, ok := WriteHeaderLines(response, cType, bodyLen, failAt);
    if !ok {
      RefusedWithin(head, entityWrites, failAt);
      return;
    }
    TransmitPrefix(head, failAt);

    if entity.Some? {
      if failAt == Some(count) {
        RefusedAfter(head, entityWrites, failAt);
        return wire, false;
      }
      wire, count := wire + Crlf, count + 1;
      AcceptedAfter(head, Crlf);
      // the body goes out by length, never as a C string
      if failAt == Some(count) {
        RefusedAfter(head + [Crlf], [entity.value], failAt);
        assert head + [Crlf] + [entity.value] == head + entityWrites;
        return wire, false;
      }
      wire, count := wire + entity.value, count + 1;
      AcceptedAfter(head + [Crlf], entity.value);
      assert head + [Crlf] + [entity.value] == head + entityWrites;
    } else {
      assert head + entityWrites == head;
    }
  }

  /** The four parts of a message: the status line, the Content-Type line
      (GET with a type), the Content-Length line (a non-empty body, for HEAD
      too) and the entity (GET with a body): the blank line and the body. */
  function TypePart(m: Method, contentType: Option<string>): string
  {
    if m == Get && contentType.Some? then ContentTypeLine(contentType.value) else []
  }

  function LengthPart(body: Option<string>): string
  {
    if BodyLen(body) != 0 then ContentLengthLine(BodyLen(body)) else []
  }

  function EntityPart(m: Method, body: Option<string>): string
  {
    if m == Get && body.Some? then Crlf + body.value else []
  }

  lemma MessageParts(m: Method, response: Response, body: Option<string>,
                     contentType: Option<string>)
    ensures Message(m, response, body, contentType)
         == StatusLine(response) + TypePart(m, contentType) + LengthPart(body) + EntityPart(m, body)
  {
    var entity := if m == Head then None else body;
    var cType := if m == Head then None else contentType;
    var a := [StatusLine(response)];
    var b := if cType.Some? then [ContentTypeLine(cType.value)] else [];
    var c := if BodyLen(body) != 0 then [ContentLengthLine(BodyLen(body))] else [];
    var d := if entity.Some? then [Crlf, entity.value] else [];
    assert Writes(m, response, body, contentType) == a + b + c + d;
    ConcatAppend(a + b + c, d);
    ConcatAppend(a + b, c);
    ConcatAppend(a, b);
    ConcatOne(StatusLine(response));
    if b != [] {
      ConcatOne(b[0]);
    } else {
      assert Concat(b) == [];
    }
    if c != [] {
      ConcatOne(c[0]);
    } else {
      assert Concat(c) == [];
    }
    if d != [] {
      assert d[1..] == [entity.value];
      ConcatOne(entity.value);
    } else {
      assert Concat(d) == [];
    }
  }

  /** A response without a body is its status line and nothing else, for
      either method: no header lines and no blank line. */
  lemma BodilessIsStatusLine(m: Method, response: Response)
    ensures Message(m, response, None, None) == StatusLine(response)
  {
    MessageParts(m, response, None, None);
  }

  /** A HEAD response is the GET response for the same body without its
      Content-Type line and without the blank line and the body, but with
      the same Content-Length line. */
  lemma HeadIsGetWithoutEntity(response: Response, body: Option<string>,
                               contentType: Option<string>)
    ensures Message(Get, response, body, None)
         == Message(Head, response, body, contentType) + EntityPart(Get, body)
    ensures Message(Head, response, body, contentType) == StatusLine(response) + LengthPart(body)
  {
    MessageParts(Get, response, body, None);
    MessageParts(Head, response, body, contentType);
    var status, length := StatusLine(response), LengthPart(body);
    assert TypePart(Get, None) == [] && TypePart(Head, contentType) == [];
    assert EntityPart(Head, body) == [];
    assert status + [] + length + [] == status + length;
    assert status + [] + length == status + length;
  }

  /** The body of a GET response comes last, byte for byte and NULs
      included, after the blank line; a non-empty body is announced right
      before that by a Content-Length line holding the digits of its length
      (which read back as that length, by DecimalRoundTrip). */
  lemma BodyFramed(response: Response, body: string, contentType: Option<string>)
    requires body != []
    ensures Message(Get, response, Some(body), contentType)
         == StatusLine(response) + TypePart(Get, contentType)
            + ContentLengthLine(|body|) + Crlf + body
  {
    MessageParts(Get, response, Some(body), contentType);
    BodyParts(body);
  }

  lemma BodyParts(body: string)
    requires body != []
    ensures LengthPart(Some(body)) == ContentLengthLine(|body|)
    ensures EntityPart(Get, Some(body)) == Crlf + body
  {
  }

  /** An empty body is sent as the blank line alone, with no Content-Length
      line. */
  lemma EmptyBodyUnannounced(response: Response, contentType: Option<string>)
    ensures Message(Get, response, Some([]), contentType)
         == StatusLine(response) + TypePart(Get, contentType) + Crlf
  {
    MessageParts(Get, response, Some([]), contentType);
  }

  /** The number of decimal digits in `s` from `i` on. */
  function DigitRun(s: string, i: nat): (k: nat)
    requires i <= |s|
    ensures i + k <= |s|
    decreases |s| - i
  {
    if i < |s| && IsDigit(s[i]) then 1 + DigitRun(s, i + 1) else 0
  }

  /** The digit run ends at the first byte that is not a digit. */
  lemma {:induction false} DigitRunIs(s: string, i: nat, k: nat)
    requires i + k <= |s| && (forall j :: i <= j < i + k ==> IsDigit(s[j]))
    requires i + k == |s| || !IsDigit(s[i + k])
    ensures DigitRun(s, i) == k
    decreases k
  {
    if k > 0 {
      DigitRunIs(s, i + 1, k - 1);
    }
  }

  /** How a client reads the status code: "HTTP/1.1 ", then the digits up
      to the first non-digit. */
  function ReadStatusCode(wire: string): Option<nat>
  {
    if |wire| < 9 || wire[..9] != "HTTP/1.1 " then None
    else
      var k := DigitRun(wire, 9);
      if k == 0 then None else Some(DecimalValue(wire[9..9 + k]))
  }

  /** A status line, whatever follows it, reads back as its status code. */
  lemma StatusLineCode(response: Response, rest: string)
    ensures ReadStatusCode(StatusLine(response) + rest) == Some(response.statusCode)
  {
    var w := StatusLine(response) + rest;
    var digits := Decimal(response.statusCode);
    assert w == "HTTP/1.1 " + digits + (" " + response.reasonPhrase + Crlf + rest);
    assert w[..9] == "HTTP/1.1 ";
    assert w[9..9 + |digits|] == digits;
    assert w[9 + |digits|] == ' ';
    DigitRunIs(w, 9, |digits|);
    DecimalRoundTrip(response.statusCode);
  }

  /** Whatever follows, a client reads back the status code the response
      was sent with. */
  lemma StatusCodeRoundTrip(m: Method, response: Response, body: Option<string>,
                            contentType: Option<string>)
    ensures ReadStatusCode(Message(m, response, body, contentType)) == Some(response.statusCode)
  {
    MessageParts(m, response, body, contentType);
    var status, typeLine, length, entity :=
      StatusLine(response), TypePart(m, contentType), LengthPart(body), EntityPart(m, body);
    assert status + typeLine + length + entity == status + (typeLine + length + entity);
    StatusLineCode(response, typeLine + length + entity);
  }
}
