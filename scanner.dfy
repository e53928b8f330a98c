/** The scanner primitives of webserver.c: cursors over `buf[pos..]` that
    stop at the end of the buffer. A cursor `pos` may already lie past the
    end (the parser steps over separators without checking); every scanner
    then reads nothing and reports 0 or false. */
module Scanner {

  /** Optional whitespace: a space or a horizontal tab. */
  predicate IsOws(c: char) { c == ' ' || c == '\t' }

  /** The length of the run of spaces and tabs that starts at `pos`. */
  function OwsRun(buf: string, pos: nat): (r: nat)
    ensures r == 0 || pos + r <= |buf|
    decreases |buf| - pos
  {
    if pos < |buf| && IsOws(buf[pos]) then 1 + OwsRun(buf, pos + 1) else 0
  }

  /** The run is all whitespace and ends at the end or at another byte. */
  lemma {:induction false} OwsRunSpec(buf: string, pos: nat)
    ensures var r := OwsRun(buf, pos);
      (r == 0 || pos + r <= |buf|)
      && (forall k :: pos <= k < pos + r ==> IsOws(buf[k]))
      && (pos + r < |buf| ==> !IsOws(buf[pos + r]))
    decreases |buf| - pos
  {
    if pos < |buf| && IsOws(buf[pos]) {
      OwsRunSpec(buf, pos + 1);
    }
  }

  /** next_optional_whitespace: skips spaces and tabs and returns how many it skipped. */
  method NextOptionalWhitespace(buf: string, pos: nat) returns (n: nat)
    ensures n == OwsRun(buf, pos)
  {
    var cur := pos;
    while cur < |buf| && (buf[cur] == ' ' || buf[cur] == '\t')
      invariant pos <= cur
      invariant cur - pos + OwsRun(buf, cur) == OwsRun(buf, pos)
      decreases |buf| - cur
    {
      cur := cur + 1;
    }
    n := cur - pos;
  }

  /** is_crlf: whether a CR LF pair starts at `pos`, without consuming it. */
  predicate IsCrlf(buf: string, pos: nat)
    ensures IsCrlf(buf, pos) <==> pos + 1 < |buf| && buf[pos] == '\r' && buf[pos + 1] == '\n'
  {
    if pos < |buf| && buf[pos] == '\r' then pos + 1 < |buf| && buf[pos + 1] == '\n' else false
  }

  /** The number of bytes from `pos` before the CR of the first CR LF pair,
      or before the end of the buffer when there is no such pair. */
  function LineLen(buf: string, pos: nat): (r: nat)
    ensures r == 0 || pos + r <= |buf|
    decreases |buf| - pos
  {
    if pos >= |buf| || IsCrlf(buf, pos) then 0 else 1 + LineLen(buf, pos + 1)
  }

  /** No CR LF pair starts inside the line, and one starts right after it
      unless the line runs to the end. */
  lemma {:induction false} LineLenSpec(buf: string, pos: nat)
    ensures var r := LineLen(buf, pos);
      (r == 0 || pos + r <= |buf|)
      && (forall k :: pos <= k < pos + r ==> !IsCrlf(buf, k))
      && (pos + r < |buf| ==> IsCrlf(buf, pos + r))
    decreases |buf| - pos
  {
    if pos < |buf| && !IsCrlf(buf, pos) {
      LineLenSpec(buf, pos + 1);
    }
  }

  /** What next_crlf returns: the offset of the LF of the first CR LF pair
      at or after `pos`; a lone CR is an ordinary byte. With no pair, the
      number of bytes left. */
  function CrlfOffset(buf: string, pos: nat): (r: nat)
    ensures pos <= |buf| ==> pos + r <= |buf|
    ensures pos >= |buf| ==> r == 0
  {
    var n := LineLen(buf, pos);
    if pos + n < |buf| then n + 1 else n
  }

  /** next_crlf never passes the end; it stops on the LF of the first CR LF
      pair, and when there is none it has consumed every byte left. */
  lemma CrlfOffsetSpec(buf: string, pos: nat)
    requires pos <= |buf|
    ensures var r := CrlfOffset(buf, pos);
      pos + r <= |buf|
      && (pos + r < |buf| ==>
            r >= 1 && buf[pos + r - 1] == '\r' && buf[pos + r] == '\n'
            && forall k :: pos <= k < pos + r - 1 ==> !IsCrlf(buf, k))
      && (pos + r == |buf| ==> forall k :: pos <= k < |buf| ==> !IsCrlf(buf, k))
  {
    LineLenSpec(buf, pos);
  }

  /** next_crlf: advances to the LF of the first CR LF pair (or to the end)
      and returns how far it went. */
  method NextCrlf(buf: string, pos: nat) returns (n: nat)
    ensures n == CrlfOffset(buf, pos)
  {
    var cur := pos;
    while cur < |buf|
      invariant pos <= cur
      invariant pos <= |buf| ==> cur <= |buf|
      invariant LineLen(buf, pos) == cur - pos + LineLen(buf, cur)
      decreases |buf| - cur
    {
      if buf[cur] == '\r' {
        cur := cur + 1;
        if cur < |buf| && buf[cur] == '\n' {
          assert IsCrlf(buf, cur - 1);
          assert LineLen(buf, pos) == cur - 1 - pos;
          break;
        }
        cur := cur - 1;
      }
      cur := cur + 1;
    }
    n := cur - pos;
  }

  /** A string with no CR LF pair in it. */
  predicate NoCrlfPair(s: string) { forall j :: 0 <= j < |s| ==> !IsCrlf(s, j) }

  lemma NoCrIsNoCrlfPair(s: string)
    requires '\r' !in s
    ensures NoCrlfPair(s)
  {
  }

  /** The run length is determined by where the run ends. */
  lemma {:induction false} OwsRunIs(buf: string, pos: nat, n: nat)
    requires pos + n <= |buf|
    requires forall k :: pos <= k < pos + n ==> IsOws(buf[k])
    requires pos + n == |buf| || !IsOws(buf[pos + n])
    ensures OwsRun(buf, pos) == n
    decreases n
  {
    if n > 0 {
      OwsRunIs(buf, pos + 1, n - 1);
    }
  }

  /** The line length is determined by where the first CR LF pair is. */
  lemma {:induction false} LineLenIs(buf: string, pos: nat, n: nat)
    requires pos + n <= |buf|
    requires forall k :: pos <= k < pos + n ==> !IsCrlf(buf, k)
    requires pos + n == |buf| || IsCrlf(buf, pos + n)
    ensures LineLen(buf, pos) == n
    decreases n
  {
    if n > 0 {
      LineLenIs(buf, pos + 1, n - 1);
    }
  }

  /** Stepping over a located piece: what follows it starts `|s|` further on. */
  lemma Advance(buf: string, pos: nat, s: string, post: string)
    requires pos <= |buf| && buf[pos..] == s + post
    ensures pos + |s| <= |buf| && buf[pos + |s|..] == post
  {
    assert buf[pos + |s|..] == buf[pos..][|s|..];
  }

  /** A piece located at `pos` is the slice there. */
  lemma Located(buf: string, pos: nat, s: string, post: string)
    requires pos <= |buf| && buf[pos..] == s + post
    ensures pos + |s| <= |buf| && buf[pos..pos + |s|] == s
  {
    assert buf[pos..pos + |s|] == buf[pos..][..|s|];
  }

  /** Reading a run of optional whitespace located at `pos`. */
  lemma OwsRunFrom(buf: string, pos: nat, s: string, post: string)
    requires pos <= |buf| && buf[pos..] == s + post
    requires forall j :: 0 <= j < |s| ==> IsOws(s[j])
    requires post == [] || !IsOws(post[0])
    ensures OwsRun(buf, pos) == |s|
  {
    Located(buf, pos, s, post);
    forall k | pos <= k < pos + |s| ensures IsOws(buf[k]) {
      assert buf[k] == buf[pos..][k - pos];
    }
    if post != [] {
      assert buf[pos + |s|] == buf[pos..][|s|];
    }
    OwsRunIs(buf, pos, |s|);
  }

  /** Reading a line located at `pos`: the line `s` has no CR LF pair and
      `post` starts with one. */
  lemma LineLenFrom(buf: string, pos: nat, s: string, post: string)
    requires pos <= |buf| && buf[pos..] == s + post
    requires NoCrlfPair(s)
    requires IsCrlf(post, 0)
    ensures LineLen(buf, pos) == |s|
  {
    Located(buf, pos, s, post);
    var r := buf[pos..];
    forall k | pos <= k < pos + |s| ensures !IsCrlf(buf, k) {
      assert buf[k] == r[k - pos] == s[k - pos];
      if k + 1 < pos + |s| {
        assert buf[k + 1] == r[k + 1 - pos] == s[k + 1 - pos];
        assert !IsCrlf(s, k - pos);
      } else {
        assert buf[k + 1] == r[|s|] == post[0];
      }
    }
    assert IsCrlf(buf, pos + |s|) by {
      assert buf[pos + |s|] == r[|s|] == post[0];
      assert buf[pos + |s| + 1] == r[|s| + 1] == post[1];
    }
    LineLenIs(buf, pos, |s|);
  }

}
