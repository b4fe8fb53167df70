/** A reader of `multipart/byteranges` bodies, as section 14.6 of RFC 9110 lays them out, and what
    it makes of the text that the server builds. */
module ByteRangesReader {
  import opened Wrappers
  import opened Sequences
  import opened Strings
  import opened ByteRanges

  // ----- numbers

  predicate AllDigits(s: string)
  {
    forall i :: 0 <= i < |s| ==> '0' <= s[i] <= '9'
  }

  function Value(s: string): int
    requires AllDigits(s)
  {
    if s == "" then 0 else Value(s[..|s| - 1]) * 10 + (s[|s| - 1] as int - '0' as int)
  }

  /** A number without a sign, or -1. */
  function NumberOf(s: string): int
  {
    if s != "" && AllDigits(s) then Value(s) else -1
  }

  lemma {:induction false} DigitAt(d: nat)
    requires d < 10
    ensures '0' <= "0123456789"[d] <= '9' && "0123456789"[d] as int - '0' as int == d
  {
  }

  lemma {:induction false} DecimalIsRead(n: nat)
    ensures AllDigits(Decimal(n)) && Decimal(n) != "" && Value(Decimal(n)) == n
  {
    DigitAt(n % 10);
    if n < 10 {
      assert Decimal(n)[..0] == "";
    } else {
      DecimalIsRead(n / 10);
      assert Decimal(n)[..|Decimal(n)| - 1] == Decimal(n / 10);
    }
  }

  // ----- the field

  datatype Told = Told(first: int, last: int, total: int)

  /** The field of section 14.4 of RFC 9110: both positions and the length. */
  function ReadContentRange(s: string): Option<Told>
  {
    if !StartsAt(s, 0, "bytes ") then None
    else
      var t := s[6..];
      var d, e := FirstIndex(t, '-'), FirstIndex(t, '/');
      if !(d < e < |t|) then None
      else
        var told := Told(NumberOf(t[..d]), NumberOf(t[d + 1..e]), NumberOf(t[e + 1..]));
        if told.first < 0 || told.last < 0 || told.total < 0 then None else Some(told)
  }

  function Bound(n: int): string
    requires n >= -1
  {
    if n != -1 then Decimal(n) else []
  }

  lemma {:induction false} BoundIsRead(n: int)
    requires n >= -1
    ensures NumberOf(Bound(n)) == n && '-' !in Bound(n) && '/' !in Bound(n) && '\r' !in Bound(n)
  {
    if n != -1 {
      DecimalIsRead(n);
    }
  }

  lemma {:induction false} Splits(a: string, b: string, c: string)
    requires '-' !in a && '/' !in a && '-' !in b && '/' !in b
    ensures var t := a + "-" + b + "/" + c;
            && FirstIndex(t, '-') == |a| && FirstIndex(t, '/') == |a| + 1 + |b|
            && t[..|a|] == a && t[|a| + 1..|a| + 1 + |b|] == b && t[|a| + 1 + |b| + 1..] == c
  {
    var t := a + "-" + b + "/" + c;
    assert t == a + ['-'] + (b + "/" + c);
    FirstIndexIs(a, '-', b + "/" + c);
    assert t == (a + "-" + b) + ['/'] + c;
    FirstIndexIs(a + "-" + b, '/', c);
  }

  lemma {:induction false} FieldText(r: Range, contentLength: nat)
    requires Parsed(r)
    ensures ContentRangeField(r, contentLength) == "bytes " + (Bound(r.first) + "-" + Bound(r.second) + "/" + Decimal(contentLength))
  {
    var a, b, c := Bound(r.first), Bound(r.second), Decimal(contentLength);
    Regroup("bytes ", a, "-");
    Regroup("bytes ", a + "-", b);
    Regroup("bytes ", a + "-" + b, "/");
    Regroup("bytes ", a + "-" + b + "/", c);
  }

  lemma {:induction false} ThreeNumbers(a: string, b: string, c: string)
    requires '-' !in a && '/' !in a && '-' !in b && '/' !in b
    ensures var told := Told(NumberOf(a), NumberOf(b), NumberOf(c));
            ReadContentRange("bytes " + (a + "-" + b + "/" + c))
            == if told.first < 0 || told.last < 0 || told.total < 0 then None else Some(told)
  {
    var t := a + "-" + b + "/" + c;
    Splits(a, b, c);
    assert ("bytes " + t)[0..6] == "bytes " && ("bytes " + t)[6..] == t;
  }

  lemma {:induction false} NoLineEnd(a: string, b: string, c: string)
    requires '\r' !in a && '\r' !in b && '\r' !in c
    ensures '\r' !in "bytes " + (a + "-" + b + "/" + c)
  {
    assert '\r' !in a + "-" + b;
    assert '\r' !in a + "-" + b + "/" + c;
  }

  /** The field names the range's positions and the length just when the range gives both ends; one
      that leaves an end out is announced without it, which the standard does not allow. */
  lemma {:induction false} FieldIsRead(r: Range, contentLength: nat)
    requires Parsed(r)
    ensures ReadContentRange(ContentRangeField(r, contentLength))
         == if r.first != -1 && r.second != -1 then Some(Told(r.first, r.second, contentLength)) else None
    ensures '\r' !in ContentRangeField(r, contentLength)
  {
    BoundIsRead(r.first);
    BoundIsRead(r.second);
    BoundIsRead(contentLength);
    FieldText(r, contentLength);
    ThreeNumbers(Bound(r.first), Bound(r.second), Decimal(contentLength));
    NoLineEnd(Bound(r.first), Bound(r.second), Decimal(contentLength));
  }

  // ----- the text

  datatype Heads = Heads(contentType: string, range: string)

  function ReadHeads(s: string, h: Heads): (r: Option<(Heads, string)>)
    ensures r.Some? ==> |r.value.1| < |s|
    decreases |s|
  {
    var pos := Find(s, CRLF);
    if pos == |s| then None
    else if pos == 0 then Some((h, s[2..]))
    else
      var line, rest := s[..pos], s[pos + 2..];
      if StartsAt(line, 0, "Content-Type: ") then ReadHeads(rest, h.(contentType := line[14..]))
      else if StartsAt(line, 0, "Content-Range: ") then ReadHeads(rest, h.(range := line[15..]))
      else None
  }

  datatype BodyPart = BodyPart(contentType: string, first: int, last: int, total: int, content: string)

  function ReadParts(text: string, boundary: string): Option<seq<BodyPart>>
    decreases |text|
  {
    var open := "--" + boundary + CRLF;
    if text == "--" + boundary + "--" then Some([])
    else if !StartsAt(text, 0, open) then None
    else match ReadHeads(text[|open|..], Heads("", ""))
      case None => None
      case Some((h, rest)) =>
        match ReadContentRange(h.range)
        case None => None
        case Some(told) =>
          var length := told.last + 1 - told.first;
          if length < 0 || length + 2 > |rest| || rest[length..length + 2] != CRLF then None
          else match ReadParts(rest[length + 2..], boundary)
            case None => None
            case Some(parts) => Some([BodyPart(h.contentType, told.first, told.last, told.total, rest[..length])] + parts)
  }

  // ----- the text that is written

  function TypeLine(contentType: string): string
  {
    if contentType == "" then "" else "Content-Type: " + contentType + CRLF
  }

  function HeadText(contentType: string, field: string): string
  {
    TypeLine(contentType) + ("Content-Range: " + field + CRLF) + CRLF
  }

  lemma {:induction false} TextOne(t: string, body: string)
    ensures Text([Token(t)], body) == t
  {
    assert [Token(t)][1..] == [] && t + [] == t;
  }

  lemma {:induction false} TextThree(t: string, u: string, v: string, body: string)
    ensures Text([Token(t), Token(u), Token(v)], body) == t + u + v
  {
    var w, x := [Token(t), Token(u)], [Token(v)];
    assert [Token(t), Token(u), Token(v)] == [Token(t)] + [Token(u)] + [Token(v)];
    LengthAppend([Token(t)] + [Token(u)], [Token(v)], body);
    LengthAppend([Token(t)], [Token(u)], body);
    TextOne(t, body);
    TextOne(u, body);
    TextOne(v, body);
  }

  lemma {:induction false} TextHead(r: Range, contentLength: nat, boundary: string, contentType: string, body: string)
    requires Parsed(r)
    ensures Text(PartHead(r, contentLength, boundary, contentType), body)
         == "--" + boundary + CRLF + HeadText(contentType, ContentRangeField(r, contentLength))
  {
    var field := ContentRangeField(r, contentLength);
    var open, types := [Token("--"), Token(boundary), Token(CRLF)],
      if contentType != [] then [Token("Content-Type: "), Token(contentType), Token(CRLF)] else [];
    var ranges := [Token("Content-Range: "), Token(field), Token(CRLF)];
    assert PartHead(r, contentLength, boundary, contentType) == open + (types + (ranges + [Token(CRLF)]));
    LengthAppend(open, types + (ranges + [Token(CRLF)]), body);
    LengthAppend(types, ranges + [Token(CRLF)], body);
    LengthAppend(ranges, [Token(CRLF)], body);
    TextThree("--", boundary, CRLF, body);
    TextThree("Content-Type: ", contentType, CRLF, body);
    TextThree("Content-Range: ", field, CRLF, body);
    TextOne(CRLF, body);
    assert Text(types, body) == TypeLine(contentType);
    Regroup(TypeLine(contentType), "Content-Range: " + field + CRLF, CRLF);
  }

  lemma {:induction false} TextPart(r: Range, contentLength: nat, boundary: string, contentType: string, body: string,
                                    offset: nat, length: nat, content: string)
    requires Parsed(r) && contentLength <= SSIZE_MAX
    requires OffsetAndLength(r, contentLength) == (offset, length) && content == PieceText(Content(offset, length), body)
    ensures Text(Part(r, contentLength, boundary, contentType), body)
         == "--" + boundary + CRLF + (HeadText(contentType, ContentRangeField(r, contentLength)) + (content + CRLF))
  {
    var head, c := PartHead(r, contentLength, boundary, contentType), Content(offset, length);
    assert [c, Token(CRLF)] == [c] + [Token(CRLF)];
    LengthAppend(head, [c] + [Token(CRLF)], body);
    LengthAppend([c], [Token(CRLF)], body);
    TextOne(CRLF, body);
    assert [c][1..] == [] && PieceText(c, body) + [] == content;
    TextHead(r, contentLength, boundary, contentType, body);
    Regroup("--" + boundary + CRLF, HeadText(contentType, ContentRangeField(r, contentLength)), content + CRLF);
  }

  // ----- reading it

  lemma {:induction false} LineFound(line: string, rest: string)
    requires '\r' !in line
    ensures Find(line + CRLF + rest, CRLF) == |line|
    ensures (line + CRLF + rest)[..|line|] == line && (line + CRLF + rest)[|line| + 2..] == rest
  {
    AbsentCharacter(line, CRLF);
    FindAtSplice(line, CRLF, rest);
  }

  lemma {:induction false} TypeIsRead(contentType: string, rest: string, h: Heads)
    requires '\r' !in contentType
    ensures ReadHeads("Content-Type: " + contentType + CRLF + rest, h) == ReadHeads(rest, h.(contentType := contentType))
  {
    var line := "Content-Type: " + contentType;
    assert '\r' !in line;
    LineFound(line, rest);
    assert line[0..14] == "Content-Type: " && line[14..] == contentType;
  }

  lemma {:induction false} RangeIsRead(field: string, rest: string, h: Heads)
    requires '\r' !in field
    ensures ReadHeads("Content-Range: " + field + CRLF + rest, h) == ReadHeads(rest, h.(range := field))
  {
    var line := "Content-Range: " + field;
    assert '\r' !in line;
    LineFound(line, rest);
    assert line[0..14] == "Content-Range:" && "Content-Range:"[8] == 'R' && "Content-Type: "[8] == 'T';
    assert line[0..15] == "Content-Range: " && line[15..] == field;
  }

  lemma {:induction false} EndIsRead(rest: string, h: Heads)
    ensures ReadHeads(CRLF + rest, h) == Some((h, rest))
  {
    LineFound("", rest);
    assert "" + CRLF + rest == CRLF + rest;
  }

  lemma {:induction false} HeadTextIs(contentType: string, field: string, rest: string)
    ensures HeadText(contentType, field) + rest == TypeLine(contentType) + ("Content-Range: " + field + CRLF + (CRLF + rest))
  {
    var ranges := "Content-Range: " + field + CRLF;
    Regroup(ranges, CRLF, rest);
    Regroup(TypeLine(contentType), ranges, CRLF);
    Regroup(TypeLine(contentType), ranges + CRLF, rest);
  }

  lemma {:induction false} HeadsAreRead(contentType: string, field: string, rest: string)
    requires '\r' !in contentType && '\r' !in field
    ensures ReadHeads(HeadText(contentType, field) + rest, Heads("", "")) == Some((Heads(contentType, field), rest))
  {
    var more := "Content-Range: " + field + CRLF + (CRLF + rest);
    HeadTextIs(contentType, field, rest);
    EndIsRead(rest, Heads(contentType, field));
    RangeIsRead(field, CRLF + rest, Heads(contentType, ""));
    if contentType == "" {
      assert "" + more == more;
    } else {
      TypeIsRead(contentType, more, Heads("", ""));
    }
  }

  /** One part of the text, with what follows it. */
  function PartText(boundary: string, contentType: string, field: string, content: string, rest: string): string
  {
    "--" + boundary + CRLF + (HeadText(contentType, field) + (content + CRLF + rest))
  }

  lemma {:induction false} PartOpens(boundary: string, contentType: string, field: string, content: string, rest: string)
    ensures var text, open := PartText(boundary, contentType, field, content, rest), "--" + boundary + CRLF;
            && text != "--" + boundary + "--" && StartsAt(text, 0, open)
            && text[|open|..] == HeadText(contentType, field) + (content + CRLF + rest)
  {
    var text, open := PartText(boundary, contentType, field, content, rest), "--" + boundary + CRLF;
    assert text[0..|open|] == open && text[..|open|] == open;
    NotTheEnd(text, boundary);
  }

  lemma {:induction false} PartCloses(content: string, rest: string, n: int)
    requires n == |content|
    ensures var tail := content + CRLF + rest;
            n + 2 <= |tail| && tail[n..n + 2] == CRLF && tail[..n] == content && tail[n + 2..] == rest
  {
  }

  lemma {:induction false} PartIsRead(text: string, told: Told, boundary: string, contentType: string, field: string,
                                      content: string,
                                      rest: string, parts: seq<BodyPart>)
    requires text == PartText(boundary, contentType, field, content, rest) && ReadParts(rest, boundary) == Some(parts)
    requires '\r' !in contentType && '\r' !in field && ReadContentRange(field) == Some(told)
    requires |content| == told.last + 1 - told.first
    ensures ReadParts(text, boundary) == Some([BodyPart(contentType, told.first, told.last, told.total, content)] + parts)
  {
    PartOpens(boundary, contentType, field, content, rest);
    HeadsAreRead(contentType, field, content + CRLF + rest);
    PartCloses(content, rest, told.last + 1 - told.first);
  }

  lemma {:induction false} NotTheEnd(text: string, boundary: string)
    requires |text| >= |boundary| + 4 && text[..|boundary| + 4] == "--" + boundary + CRLF
    ensures text != "--" + boundary + "--"
  {
    var n := 2 + |boundary|;
    assert text[n] == text[..|boundary| + 4][n] == '\r';
    assert ("--" + boundary + "--")[n] == '-';
  }

  /** The bytes from one position to another, and what the client is to be told about them. */
  function PartOf(r: Range, contentType: string, body: string): BodyPart
    requires 0 <= r.first <= r.second < |body|
  {
    BodyPart(contentType, r.first, r.second, |body|, body[r.first..r.second + 1])
  }

  predicate GiveBothEnds(ranges: seq<Range>, contentLength: nat)
  {
    forall i :: 0 <= i < |ranges| ==> 0 <= ranges[i].first <= ranges[i].second < contentLength
  }

  lemma {:induction false} BothEnds(r: Range, body: string, n: nat, length: nat, content: string)
    requires 0 <= r.first <= r.second < |body| == n <= SSIZE_MAX && length == r.second - r.first + 1
    requires content == body[r.first..r.second + 1]
    ensures Parsed(r) && OffsetAndLength(r, n) == (r.first, length)
    ensures PieceText(Content(r.first, length), body) == content
  {
  }

  lemma {:induction false} AllParsedIs(ranges: seq<Range>, contentLength: nat)
    requires GiveBothEnds(ranges, contentLength) && contentLength <= SSIZE_MAX
    ensures AllParsed(ranges)
  {
  }

  function PartsOf(ranges: seq<Range>, contentType: string, body: string): seq<BodyPart>
    requires GiveBothEnds(ranges, |body|)
  {
    if ranges == [] then [] else [PartOf(ranges[0], contentType, body)] + PartsOf(ranges[1..], contentType, body)
  }

  /** Round trip: a client that reads the text by the standard gets every range with its positions,
      the length of the whole, the content type and exactly its bytes, in order. */
  lemma {:induction false} PartsAreRead(ranges: seq<Range>, boundary: string, contentType: string, body: string)
    requires GiveBothEnds(ranges, |body|) && |body| <= SSIZE_MAX && '\r' !in contentType
    ensures AllParsed(ranges)
    ensures ReadParts(Text(ByteRanges.Pieces(ranges, |body|, boundary, contentType), body), boundary)
         == Some(PartsOf(ranges, contentType, body))
    decreases |ranges|
  {
    AllParsedIs(ranges, |body|);
    if ranges == [] {
      TextThree("--", boundary, "--", body);
    } else {
      var later := ByteRanges.Pieces(ranges[1..], |body|, boundary, contentType);
      PartsAreRead(ranges[1..], boundary, contentType, body);
      OneMorePart(ranges[0], |body|, boundary, contentType, body, PartOf(ranges[0], contentType, body), later,
                  PartsOf(ranges[1..], contentType, body));
      assert ByteRanges.Pieces(ranges, |body|, boundary, contentType) == Part(ranges[0], |body|, boundary, contentType) + later;
    }
  }

  lemma {:induction false} PartOfIs(r: Range, contentType: string, body: string, n: nat, content: string, part: BodyPart)
    requires 0 <= r.first <= r.second < |body| == n && part == PartOf(r, contentType, body) && content == part.content
    ensures part == BodyPart(contentType, r.first, r.second, n, content)
    ensures content == body[r.first..r.second + 1] && |content| == r.second + 1 - r.first
  {
  }

  lemma {:induction false} OneMorePart(r: Range, n: nat, boundary: string, contentType: string, body: string, part: BodyPart,
                                       later: seq<Piece>, parts: seq<BodyPart>)
    requires 0 <= r.first <= r.second < |body| == n <= SSIZE_MAX && Parsed(r) && '\r' !in contentType
    requires part == PartOf(r, contentType, body) && ReadParts(Text(later, body), boundary) == Some(parts)
    ensures ReadParts(Text(Part(r, n, boundary, contentType) + later, body), boundary) == Some([part] + parts)
  {
    var field, content := ContentRangeField(r, n), part.content;
    PartOfIs(r, contentType, body, n, content, part);
    FieldIsRead(r, n);
    PartInFront(r, n, boundary, contentType, body, field, content, later);
    PartBefore(r, boundary, contentType, n, field, content, Text(Part(r, n, boundary, contentType) + later, body), Text(later, body), parts);
  }

  lemma {:induction false} PartBefore(r: Range, boundary: string, contentType: string, n: nat, field: string, content: string,
                                      text: string, rest: string, parts: seq<BodyPart>)
    requires 0 <= r.first <= r.second < n && '\r' !in contentType && '\r' !in field
    requires ReadContentRange(field) == Some(Told(r.first, r.second, n)) && |content| == r.second + 1 - r.first
    requires text == PartText(boundary, contentType, field, content, rest) && ReadParts(rest, boundary) == Some(parts)
    ensures ReadParts(text, boundary) == Some([BodyPart(contentType, r.first, r.second, n, content)] + parts)
  {
    PartIsRead(text, Told(r.first, r.second, n), boundary, contentType, field, content, rest, parts);
  }

  lemma {:induction false} PartInFront(r: Range, n: nat, boundary: string, contentType: string, body: string,
                                       field: string, content: string, later: seq<Piece>)
    requires 0 <= r.first <= r.second < |body| == n <= SSIZE_MAX && Parsed(r)
    requires field == ContentRangeField(r, n) && content == body[r.first..r.second + 1]
    ensures Text(Part(r, n, boundary, contentType) + later, body) == PartText(boundary, contentType, field, content, Text(later, body))
  {
    var open, head := "--" + boundary + CRLF, HeadText(contentType, field);
    var length := r.second - r.first + 1;
    BothEnds(r, body, n, length, content);
    LengthAppend(Part(r, n, boundary, contentType), later, body);
    TextPart(r, n, boundary, contentType, body, r.first, length, content);
    Join(open, head, content + CRLF, Text(later, body));
  }

  lemma {:induction false} Join(open: string, head: string, end: string, rest: string)
    ensures open + (head + end) + rest == open + (head + (end + rest))
  {
    Regroup(head, end, rest);
    Regroup(open, head + end, rest);
  }
}
