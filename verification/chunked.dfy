/** The chunked transfer coding (section 7.1 of RFC 9112): reader and writer. */
module Chunked {
  import opened Sequences
  import opened Strings
  import opened UrlCoding
  import opened Stream

  const RECV_BUFSIZ: nat := 4096
  const ULONG_MAX: nat := 0xffff_ffff_ffff_ffff

  type Fields = seq<(string, string)>

  // ----- strtoul with base 16

  /** The length of the run of hexadecimal digits at the front. */
  function DigitRun(s: string): (n: nat)
    ensures n <= |s|
    ensures forall i :: 0 <= i < n ==> HexDigit(s[i]) >= 0
    ensures n < |s| ==> HexDigit(s[n]) < 0
  {
    if s == [] || HexDigit(s[0]) < 0 then 0 else 1 + DigitRun(s[1..])
  }

  function DigitsValue(s: string): nat
    requires forall i :: 0 <= i < |s| ==> HexDigit(s[i]) >= 0
  {
    if s == [] then 0 else DigitsValue(s[..|s| - 1]) * 16 + HexDigit(s[|s| - 1])
  }

  predicate HasHexPrefix(s: string)
  {
    |s| > 2 && s[0] == '0' && (s[1] == 'x' || s[1] == 'X') && HexDigit(s[2]) >= 0
  }

  /** `strtoul(s, &end, 16)`: whether a number was found, and its value in 64 bits. */
  function StrToUl(s: string): (r: (bool, nat))
    ensures r.1 <= ULONG_MAX
  {
    var t := SkipSpace(s);
    var negative := t != [] && t[0] == '-';
    var signed := t != [] && (t[0] == '-' || t[0] == '+');
    var u := if signed then t[1..] else t;
    var digits := if HasHexPrefix(u) then u[2..] else u;
    var n := DigitRun(digits);
    var v := DigitsValue(digits[..n]);
    if n == 0 then (false, 0)
    else if v > ULONG_MAX then (true, ULONG_MAX)
    else if negative then (true, (ULONG_MAX + 1 - v) % (ULONG_MAX + 1))
    else (true, v)
  }

  // ----- trailer fields

  predicate EqualNoCase(a: string, b: string)
  {
    |a| == |b| && StartsWithNoCase(a, b)
  }

  /** `parse_header`: the field of a line without its line end, if it is one. */
  function HeaderField(line: string): (r: Fields)
    ensures |r| <= 1
  {
    var s := TrimRight(line);
    var p := FirstIndex(s, ':');
    if p == |s| then []
    else
      var val := TrimLeft(s[p + 1..]);
      if val == [] then []
      else [(s[..p], if EqualNoCase(s[..p], "Location") then val else Decoded(val, false))]
  }

  lemma {:induction false} ToEnd(s: string, i: nat, end: nat)
    requires i <= end == |s|
    ensures s[i..end] == s[i..]
  {
  }

  method SkipRight(line: string) returns (end: nat)
    ensures end <= |line| && line[..end] == TrimRight(line)
  {
    end := |line|;
    assert line[..end] == line;
    while end > 0 && IsBlank(line[end - 1])
      invariant end <= |line|
      invariant TrimRight(line) == TrimRight(line[..end])
    {
      assert line[..end][..end - 1] == line[..end - 1];
      end := end - 1;
    }
  }

  method ParseHeader(line: string) returns (fields: Fields)
    ensures fields == HeaderField(line)
  {
    var end := SkipRight(line);
    var s := line[..end];
    var p := 0;
    while p < end && line[p] != ':'
      invariant p <= end
      invariant forall i :: 0 <= i < p ==> s[i] != ':'
    {
      p := p + 1;
    }
    FirstIndexAt(s, ':', p);
    if p == end { return []; }
    var keyEnd := p;
    p := SkipLeft(s, p + 1, end);
    ToEnd(s, keyEnd + 1, end);
    ToEnd(s, p, end);
    if p < end {
      var key, val := s[..keyEnd], s[p..];
      if !EqualNoCase(key, "Location") {
        val := DecodeUrl(val, false);
      }
      return [(key, val)];
    }
    return [];
  }

  lemma {:induction false} FirstIndexAt(s: string, d: char, p: nat)
    requires p <= |s| && (forall i :: 0 <= i < p ==> s[i] != d) && (p < |s| ==> s[p] == d)
    ensures FirstIndex(s, d) == p
  {
    var r := FirstIndex(s, d);
    assert forall i :: 0 <= i < r ==> s[..r][i] == s[i];
  }

  // ----- the reader, as a function of the bytes to come

  /** What a run of the reader leaves behind: its answer, the content and the trailer fields it
      delivered, and the bytes it did not touch. */
  datatype Reading = Reading(ok: bool, content: string, fields: Fields, rest: string)

  function Fail(content: string, fields: Fields, rest: string): Reading
  {
    Reading(false, content, fields, rest)
  }

  function LineOf(s: string): string { s[..LineLength(s)] }

  function BehindLine(s: string): (r: string)
    ensures s != [] ==> |r| < |s|
  {
    s[LineLength(s)..]
  }

  /** From a chunk-size line on; `content` was delivered before. */
  function ReadChunks(s: string, fails: bool, content: string): Reading
    decreases |s|
  {
    if !HasLine(s, fails) then Fail(content, [], BehindLine(s))
    else
      var (found, len) := StrToUl(CString(LineOf(s)));
      var data := BehindLine(s);
      if !found || len == ULONG_MAX then Fail(content, [], data)
      else if len == 0 then ReadTrailer(data, fails, content, [])
      else if |data| < len then Fail(content + data, [], [])
      else
        var content', tail := content + data[..len], data[len..];
        if !HasLine(tail, fails) || CString(LineOf(tail)) != CRLF then Fail(content', [], BehindLine(tail))
        else ReadChunks(BehindLine(tail), fails, content')
  }

  /** The bytes of a line in front of its line end. */
  function Stripped(line: string): string
  {
    if |line| < 2 then [] else line[..|line| - 2]
  }

  /** From the line behind the last chunk on. */
  function ReadTrailer(s: string, fails: bool, content: string, fields: Fields): Reading
    decreases |s|
  {
    if !HasLine(s, fails) then Fail(content, fields, BehindLine(s))
    else
      var line, rest := LineOf(s), BehindLine(s);
      if CString(line) == CRLF then Reading(true, content, fields, rest)
      else if |line| > HEADER_MAX_LENGTH then Fail(content, fields, rest)
      else ReadTrailer(rest, fails, content, fields + HeaderField(Stripped(line)))
  }

  // ----- the reader itself

  /** The receiver of the content, which accepts everything. */
  class Receiver {
    var content: string
    var fields: Fields

    constructor ()
      ensures content == [] && fields == []
    {
      content := [];
      fields := [];
    }
  }

  /** `read_content_with_length`: the next `len` bytes, in pieces of any size. */
  method ReadContentWithLength(strm: SocketStream, len: nat, out: Receiver) returns (ok: bool)
    requires strm.Valid()
    modifies strm, strm.readBuff, strm.sock, out`content
    ensures strm.Valid()
    ensures var all := old(strm.Unread()); var n := if len <= |all| then len else |all|;
            && ok == (len <= |all|)
            && out.content == old(out.content) + all[..n] && strm.Unread() == all[n..]
  {
    ghost var all, before := strm.Unread(), out.content;
    assert all[0..] == all;
    var r := 0;
    while r < len
      invariant strm.Valid() && r <= len && r <= |all|
      invariant strm.Unread() == all[r..]
      invariant out.content == before + all[..r]
    {
      var readLen := len - r;
      var n, buf := strm.Read(if readLen < RECV_BUFSIZ then readLen else RECV_BUFSIZ);
      if n <= 0 {
        assert all[..r] == all;
        return false;
      }
      PieceTaken(all, r, buf, strm.Unread());
      Regroup(before, all[..r], buf);
      out.content := out.content + buf;
      r := r + n;
    }
    return true;
  }

  lemma {:induction false} PieceTaken(all: string, r: nat, buf: string, unread: string)
    requires r <= |all| && all[r..] == buf + unread
    ensures r + |buf| <= |all| && unread == all[r + |buf|..] && all[..r] + buf == all[..r + |buf|]
  {
    assert |all[r..]| == |buf| + |unread|;
    assert all[r..][|buf|..] == all[r + |buf|..];
    assert all[r..][..|buf|] == all[r..r + |buf|];
  }

  /** The line reader holds the first line of `s`, and the rest of `s` is unread. */
  ghost predicate AtLine(lineReader: StreamLineReader, s: string)
    reads lineReader, lineReader.fixedBuffer, lineReader.strm, lineReader.strm.readBuff, lineReader.strm.sock
  {
    && lineReader.Valid()
    && HasLine(s, lineReader.strm.sock.failsAtEnd)
    && lineReader.Line() == LineOf(s) && lineReader.strm.Unread() == BehindLine(s)
  }

  /** `read_content_chunked` */
  method ReadContentChunked(strm: SocketStream, out: Receiver) returns (ok: bool)
    requires strm.Valid() && out.content == [] && out.fields == []
    modifies strm, strm.readBuff, strm.sock, out
    ensures strm.Valid()
    ensures Reading(ok, out.content, out.fields, strm.Unread())
         == ReadChunks(old(strm.Unread()), strm.sock.failsAtEnd, [])
  {
    var lineReader := new StreamLineReader(strm, 16);
    ghost var fails := strm.sock.failsAtEnd;
    ghost var s := strm.Unread();
    ghost var want := ReadChunks(s, fails, []);
    var got := lineReader.Getline();
    if !got { return false; }
    while true
      invariant lineReader.strm == strm && fresh(lineReader) && fresh(lineReader.fixedBuffer)
      invariant AtLine(lineReader, s) && out.fields == []
      invariant want == ReadChunks(s, fails, out.content)
      decreases |s|
    {
      var number := StrToUl(CString(lineReader.Line()));
      if !number.0 { return false; }
      if number.1 == ULONG_MAX { return false; }
      if number.1 == 0 { break; }
      got, s := ReadOneChunk(lineReader, number.1, out, s);
      if !got { return false; }
    }
    ok := ReadTrailerFields(lineReader, out);
  }

  /** The loop body: a chunk, the line end behind it, and the next size line. */
  method ReadOneChunk(lineReader: StreamLineReader, len: nat, out: Receiver, ghost s: string)
    returns (ok: bool, ghost s': string)
    requires AtLine(lineReader, s) && out.fields == []
    requires StrToUl(CString(LineOf(s))) == (true, len) && 0 < len < ULONG_MAX
    modifies lineReader, lineReader.fixedBuffer, lineReader.strm, lineReader.strm.readBuff, lineReader.strm.sock, out`content
    ensures lineReader.strm.Valid()
    ensures ok ==> AtLine(lineReader, s') && |s'| < |s|
    ensures ReadChunks(s, lineReader.strm.sock.failsAtEnd, old(out.content))
         == if ok then ReadChunks(s', lineReader.strm.sock.failsAtEnd, out.content)
            else Fail(out.content, [], lineReader.strm.Unread())
  {
    var strm := lineReader.strm;
    ghost var data := strm.Unread();
    var got := ReadContentWithLength(strm, len, out);
    if !got {
      assert data[..|data|] == data && data[|data|..] == [];
      return false, [];
    }
    got := lineReader.Getline();
    if !got { return false, []; }
    if CString(lineReader.Line()) != CRLF { return false, []; }
    s' := strm.Unread();
    got := lineReader.Getline();
    return got, s';
  }

  method ReadTrailerFields(lineReader: StreamLineReader, out: Receiver) returns (ok: bool)
    requires lineReader.Valid() && out.fields == []
    modifies lineReader, lineReader.fixedBuffer, lineReader.strm, lineReader.strm.readBuff, lineReader.strm.sock, out`fields
    ensures lineReader.strm.Valid()
    ensures Reading(ok, out.content, out.fields, lineReader.strm.Unread())
         == ReadTrailer(old(lineReader.strm.Unread()), lineReader.strm.sock.failsAtEnd, out.content, [])
  {
    var strm := lineReader.strm;
    ghost var fails := strm.sock.failsAtEnd;
    ghost var want := ReadTrailer(strm.Unread(), fails, out.content, []);
    ghost var s := strm.Unread();
    var got := lineReader.Getline();
    if !got { return false; }
    while CString(lineReader.Line()) != CRLF
      invariant lineReader.Valid()
      invariant HasLine(s, fails) && lineReader.Line() == LineOf(s) && strm.Unread() == BehindLine(s)
      invariant want == ReadTrailer(s, fails, out.content, out.fields)
      decreases |s|
    {
      if |lineReader.Line()| > HEADER_MAX_LENGTH { return false; }
      var field := ParseHeader(Stripped(lineReader.Line()));
      out.fields := out.fields + field;
      s := strm.Unread();
      got := lineReader.Getline();
      if !got { return false; }
    }
    return true;
  }
}
