/** Multipart byte-range responses: the length that is announced, and the bytes that are written. */
module ByteRanges {
  import opened Sequences
  import opened Strings
  import opened ChunkedWriter

  const SIZE_MAX: nat := 0xFFFF_FFFF_FFFF_FFFF
  const SSIZE_MAX: nat := 0x7FFF_FFFF_FFFF_FFFF

  /** A parsed range; -1 stands for an end that was left out. */
  datatype Range = Range(first: int, second: int)

  /** What the parser of the `Range` header lets through. */
  predicate Parsed(r: Range)
  {
    -1 <= r.first <= SSIZE_MAX && -1 <= r.second <= SSIZE_MAX
    && (r.first != -1 && r.second != -1 ==> r.first <= r.second)
  }

  /** `get_range_offset_and_length`, with the arithmetic of `size_t`. */
  function OffsetAndLength(r: Range, contentLength: nat): (p: (nat, nat))
    requires Parsed(r) && contentLength <= SSIZE_MAX
  {
    if r.first == -1 && r.second == -1 then (0, contentLength)
    else
      var first := if r.first != -1 then r.first else if contentLength > r.second then contentLength - r.second else 0;
      var second := if r.first == -1 || r.second == -1 then contentLength - 1 else r.second;
      (first, ((second - first) % (SIZE_MAX + 1) + 1) % (SIZE_MAX + 1))
  }

  predicate Within(p: (nat, nat), contentLength: nat)
  {
    p.0 + p.1 <= contentLength
  }

  /** The range stays inside the content just when its ends do; an end past the content is not
      cut off at the content's end. */
  lemma {:induction false} WithinExactly(r: Range, contentLength: nat)
    requires Parsed(r) && contentLength <= SSIZE_MAX
    ensures Within(OffsetAndLength(r, contentLength), contentLength)
       <==> r.first == -1 || (if r.second == -1 then r.first <= contentLength else r.second < contentLength)
  {
    if r.first != -1 && r.second == -1 && r.first > contentLength {
      Wraps(contentLength - 1 - r.first);
    }
  }

  /** A negative size reads as one close to the largest. */
  lemma {:induction false} Wraps(d: int)
    requires -(SSIZE_MAX + 1) <= d < -1
    ensures (d % (SIZE_MAX + 1) + 1) % (SIZE_MAX + 1) == SIZE_MAX + 2 + d > SSIZE_MAX
  {
    assert d % (SIZE_MAX + 1) == d + SIZE_MAX + 1;
  }

  /** Inside the content, the range means what section 14.1.2 of RFC 9110 says: the bytes from its
      first position to its last, or those to the end, or the last so many. */
  lemma {:induction false} RangeMeaning(r: Range, contentLength: nat, i: nat)
    requires Parsed(r) && contentLength <= SSIZE_MAX && Within(OffsetAndLength(r, contentLength), contentLength)
    requires i < contentLength
    ensures var p := OffsetAndLength(r, contentLength);
            p.0 <= i < p.0 + p.1 <==>
              if r.first == -1 then r.second == -1 || i >= contentLength - r.second
              else r.first <= i && (r.second == -1 || i <= r.second)
  {
    WithinExactly(r, contentLength);
  }

  // ----- the pieces of the body

  function Decimal(n: nat): string
  {
    if n < 10 then ["0123456789"[n]] else Decimal(n / 10) + ["0123456789"[n % 10]]
  }

  function ContentRangeField(r: Range, contentLength: nat): string
    requires Parsed(r)
  {
    "bytes " + (if r.first != -1 then Decimal(r.first) else []) + "-"
    + (if r.second != -1 then Decimal(r.second) else []) + "/" + Decimal(contentLength)
  }

  /** What `process_multipart_ranges_data` passes to its three callbacks. */
  datatype Piece = Token(text: string) | Content(offset: nat, length: nat)

  function PartHead(r: Range, contentLength: nat, boundary: string, contentType: string): seq<Piece>
    requires Parsed(r)
  {
    [Token("--"), Token(boundary), Token(CRLF)]
    + (if contentType != [] then [Token("Content-Type: "), Token(contentType), Token(CRLF)] else [])
    + [Token("Content-Range: "), Token(ContentRangeField(r, contentLength)), Token(CRLF), Token(CRLF)]
  }

  function Part(r: Range, contentLength: nat, boundary: string, contentType: string): seq<Piece>
    requires Parsed(r) && contentLength <= SSIZE_MAX
  {
    var p := OffsetAndLength(r, contentLength);
    PartHead(r, contentLength, boundary, contentType) + [Content(p.0, p.1), Token(CRLF)]
  }

  predicate AllParsed(ranges: seq<Range>)
  {
    forall r :: r in ranges ==> Parsed(r)
  }

  function Pieces(ranges: seq<Range>, contentLength: nat, boundary: string, contentType: string): seq<Piece>
    requires AllParsed(ranges) && contentLength <= SSIZE_MAX
  {
    if ranges == [] then [Token("--"), Token(boundary), Token("--")]
    else Part(ranges[0], contentLength, boundary, contentType) + Pieces(ranges[1..], contentLength, boundary, contentType)
  }

  /** The announced length. */
  function Length(pieces: seq<Piece>): nat
  {
    if pieces == [] then 0 else PieceLength(pieces[0]) + Length(pieces[1..])
  }

  function PieceLength(piece: Piece): nat
  {
    match piece case Token(text) => |text| case Content(_, length) => length
  }

  /** `substr` */
  function Substr(body: string, offset: nat, length: nat): string
    requires offset <= |body|
  {
    if offset + length <= |body| then body[offset..offset + length] else body[offset..]
  }

  function PieceText(piece: Piece, body: string): string
  {
    match piece
    case Token(text) => text
    case Content(offset, length) => if offset <= |body| then Substr(body, offset, length) else []
  }

  function Text(pieces: seq<Piece>, body: string): string
  {
    if pieces == [] then [] else PieceText(pieces[0], body) + Text(pieces[1..], body)
  }

  predicate AllWithin(pieces: seq<Piece>, contentLength: nat)
  {
    forall p :: p in pieces && p.Content? ==> p.offset + p.length <= contentLength
  }

  lemma {:induction false} LengthAppend(a: seq<Piece>, b: seq<Piece>, body: string)
    ensures Length(a + b) == Length(a) + Length(b) && Text(a + b, body) == Text(a, body) + Text(b, body)
  {
    if a == [] {
      assert a + b == b;
    } else {
      assert (a + b)[0] == a[0] && (a + b)[1..] == a[1..] + b;
      LengthAppend(a[1..], b, body);
      Regroup(PieceText(a[0], body), Text(a[1..], body), Text(b, body));
    }
  }

  lemma {:induction false} OneMore(pieces: seq<Piece>, i: nat, body: string)
    requires i < |pieces|
    ensures Length(pieces[..i + 1]) == Length(pieces[..i]) + PieceLength(pieces[i])
    ensures Text(pieces[..i + 1], body) == Text(pieces[..i], body) + PieceText(pieces[i], body)
  {
    var one := [pieces[i]];
    assert pieces[..i + 1] == pieces[..i] + one;
    LengthAppend(pieces[..i], one, body);
    assert one[1..] == [] && Length(one) == PieceLength(pieces[i]);
    assert Text(one, body) == PieceText(pieces[i], body) + [];
  }

  lemma {:induction false} PieceIsExact(piece: Piece, body: string)
    requires piece.Content? ==> piece.offset + piece.length <= |body|
    ensures |PieceText(piece, body)| == PieceLength(piece)
  {
  }

  /** Main result on lengths: when every range lies inside the content, the announced length is
      the length of the text. */
  lemma {:induction false} LengthIsExact(pieces: seq<Piece>, body: string)
    requires AllWithin(pieces, |body|)
    ensures |Text(pieces, body)| == Length(pieces)
  {
    if pieces != [] {
      LengthIsExact(pieces[1..], body);
      PieceIsExact(pieces[0], body);
    }
  }

  lemma {:induction false} AllWithinJoin(a: seq<Piece>, b: seq<Piece>, contentLength: nat)
    ensures AllWithin(a + b, contentLength) <==> AllWithin(a, contentLength) && AllWithin(b, contentLength)
  {
    assert forall q :: q in a + b <==> q in a || q in b;
  }

  lemma {:induction false} PartWithin(r: Range, contentLength: nat, boundary: string, contentType: string)
    requires Parsed(r) && contentLength <= SSIZE_MAX
    ensures AllWithin(Part(r, contentLength, boundary, contentType), contentLength)
       <==> Within(OffsetAndLength(r, contentLength), contentLength)
  {
    var p, part := OffsetAndLength(r, contentLength), Part(r, contentLength, boundary, contentType);
    assert Content(p.0, p.1) == part[|part| - 2];
    assert forall q :: q in part && q.Content? ==> q == Content(p.0, p.1);
  }

  /** All ranges stay inside just when all their ends do. */
  lemma {:induction false} RangesWithin(ranges: seq<Range>, contentLength: nat, boundary: string, contentType: string)
    requires AllParsed(ranges) && contentLength <= SSIZE_MAX
    ensures AllWithin(Pieces(ranges, contentLength, boundary, contentType), contentLength)
       <==> forall r :: r in ranges ==>
              r.first == -1 || (if r.second == -1 then r.first <= contentLength else r.second < contentLength)
  {
    if ranges != [] {
      var first, rest := ranges[0], ranges[1..];
      assert forall r :: r in ranges <==> r == first || r in rest;
      WithinExactly(first, contentLength);
      RangesWithin(rest, contentLength, boundary, contentType);
      PartWithin(first, contentLength, boundary, contentType);
      AllWithinJoin(Part(first, contentLength, boundary, contentType),
                    Pieces(rest, contentLength, boundary, contentType), contentLength);
    }
  }

  // ----- the callers

  /** `get_multipart_ranges_data_length` */
  method MultipartRangesDataLength(pieces: seq<Piece>) returns (dataLength: nat)
    ensures dataLength == Length(pieces)
  {
    dataLength := 0;
    assert pieces[..0] == [];
    for i := 0 to |pieces|
      invariant dataLength == Length(pieces[..i])
    {
      OneMore(pieces, i, []);
      dataLength := dataLength + PieceLength(pieces[i]);
    }
    assert pieces[..|pieces|] == pieces;
  }

  /** `make_multipart_ranges_data`: the text, unless some range starts behind the body. */
  method MakeMultipartRangesData(pieces: seq<Piece>, body: string) returns (ok: bool, data: string)
    ensures ok <==> forall p :: p in pieces && p.Content? ==> p.offset < |body|
    ensures ok ==> data == Text(pieces, body)
  {
    data := [];
    assert pieces[..0] == [];
    for i := 0 to |pieces|
      invariant forall k :: 0 <= k < i && pieces[k].Content? ==> pieces[k].offset < |body|
      invariant data == Text(pieces[..i], body)
    {
      OneMore(pieces, i, body);
      match pieces[i]
      case Token(text) =>
        data := data + text;
      case Content(offset, length) =>
        if offset >= |body| { return false, data; }
        data := data + Substr(body, offset, length);
    }
    assert pieces[..|pieces|] == pieces;
    return true, data;
  }

  /** The bytes that a range of a non-empty body stands for, by section 14.1.2 of RFC 9110. */
  function Selected(r: Range, body: string): string
    requires Parsed(r) && r.first <= |body|
  {
    if r.first == -1 then
      if r.second == -1 || r.second >= |body| then body else body[|body| - r.second..]
    else if r.second == -1 || r.second >= |body| then body[r.first..]
    else body[r.first..r.second + 1]
  }

  /** A body held in memory leaves the content length at 0, and the ranges are computed from that.
      A part then holds the bytes of its range just when the range gives its first position, and
      is not the whole body as `0-`; or when it asks for the last 0 bytes. */
  lemma {:induction false} PartsOfBody(r: Range, body: string)
    requires Parsed(r) && r.first < |body| <= SSIZE_MAX
    ensures PieceText(Content(OffsetAndLength(r, 0).0, OffsetAndLength(r, 0).1), body) == Selected(r, body)
       <==> if r.first == -1 then r.second == 0 || body == [] else r.first > 0 || r.second != -1
  {
    OfLengthZero(r);
    if r.first == -1 || (r.first == 0 && r.second == -1) {
      assert PieceText(Content(0, 0), body) == [];
      assert Selected(r, body) == [] <==> r.first == -1 && (r.second == 0 || body == []);
    }
  }

  lemma {:induction false} OfLengthZero(r: Range)
    requires Parsed(r)
    ensures OffsetAndLength(r, 0) ==
      if r.first == -1 || (r.first == 0 && r.second == -1) then (0, 0)
      else if r.second == -1 then (r.first, 0x1_0000_0000_0000_0000 - r.first)
      else (r.first, r.second - r.first + 1)
  {
    if r.first > 0 && r.second == -1 {
      Wraps(-1 - r.first);
    }
  }

  /** What a provider passes to the sink when asked for `length` bytes at `offset`, or its refusal. */
  datatype Offer = Canceled | Writes(datas: seq<string>)

  type Provider = (nat, nat) -> Offer

  /** The provider hands out the body, at least one byte and at most those asked for each time. */
  ghost predicate Provides(provider: Provider, body: string)
  {
    forall offset: nat, length: nat ::
      provider(offset, length).Writes? && 0 < length && offset + length <= |body| ==>
        var d := Concat(provider(offset, length).datas); d != [] && d <= body[offset..offset + length]
  }

  /** `data_sink.write` for every piece of data. */
  method Sink(strm: OutStream, datas: seq<string>) returns (ok: bool)
    modifies strm
    ensures ok ==> strm.written == old(strm.written) + Concat(datas)
  {
    ok := true;
    assert datas[0..] == datas;
    for i := 0 to |datas|
      invariant ok ==> strm.written + Concat(datas[i..]) == old(strm.written) + Concat(datas)
    {
      if ok {
        ok := strm.IsWritable();
        if ok {
          ghost var before := strm.written;
          ok := WriteData(strm, datas[i]);
          assert datas[i..][1..] == datas[i + 1..];
          Regroup(before, datas[i], Concat(datas[i + 1..]));
        }
      }
    }
    assert ok ==> strm.written + [] == strm.written;
  }

  /** `write_content`: the bytes of the range, unless the server is shutting down. */
  method WriteContent(strm: OutStream, provider: Provider, offset: nat, length: nat, ghost body: string)
    returns (ok: bool, ghost stopped: bool)
    requires Provides(provider, body) && offset + length <= |body|
    modifies strm
    ensures ok && !stopped ==> strm.written == old(strm.written) + body[offset..offset + length]
  {
    ghost var end, before := offset + length, strm.written;
    var at, left := offset, length;
    stopped := false;
    assert body[offset..offset] == [];
    while left > 0
      invariant offset <= at && at + left == end && !stopped
      invariant strm.written == before + body[offset..at]
      decreases left
    {
      var shuttingDown: bool := *;
      if shuttingDown {
        stopped := true;
        return true, stopped;
      }
      var writable := strm.IsWritable();
      if !writable { return false, stopped; }
      var offer := provider(at, left);
      if offer.Canceled? { return false, stopped; }
      ghost var was := strm.written;
      var sunk := Sink(strm, offer.datas);
      if !sunk { return false, stopped; }
      var n := Size(offer.datas);
      Delivered(body, offset, at, at + left, n, Concat(offer.datas));
      Regroup(before, body[offset..at], Concat(offer.datas));
      at, left := at + n, left - n;
    }
    return true, stopped;
  }

  function Size(datas: seq<string>): (n: nat)
    ensures n == |Concat(datas)|
  {
    if datas == [] then 0 else |datas[0]| + Size(datas[1..])
  }

  lemma {:induction false} Delivered(body: string, offset: nat, at: nat, end: nat, n: nat, d: string)
    requires offset <= at <= end <= |body| && d <= body[at..end] && n == |d|
    ensures at + n <= end && body[offset..at] + d == body[offset..at + n]
  {
    assert d == body[at..end][..n];
  }

  /** A token goes out in a single write, whose answer is not looked at. */
  method WriteToken(strm: OutStream, token: string) returns (ghost lost: nat)
    requires token != []
    modifies strm
    ensures |strm.written| + lost == |old(strm.written)| + |token|
    ensures lost == 0 ==> strm.written == old(strm.written) + token
  {
    var n := strm.Write(token);
    lost := if n < 0 then |token| else |token| - n;
    assert token[..|token|] == token;
  }

  predicate NoEmptyToken(pieces: seq<Piece>)
  {
    forall p :: p in pieces && p.Token? ==> p.text != []
  }

  lemma {:induction false} TokensNotEmpty(ranges: seq<Range>, contentLength: nat, boundary: string, contentType: string)
    requires AllParsed(ranges) && contentLength <= SSIZE_MAX && boundary != []
    ensures NoEmptyToken(Pieces(ranges, contentLength, boundary, contentType))
  {
    if ranges != [] {
      TokensNotEmpty(ranges[1..], contentLength, boundary, contentType);
    }
  }

  /** `write_multipart_ranges_data`. Main result: when it succeeds without a shutdown, the bytes
      written and the bytes of tokens that a short write left behind add up to the announced
      length; and if no token was cut short, what was written is the whole text. */
  method WriteMultipartRangesData(strm: OutStream, provider: Provider, pieces: seq<Piece>, ghost body: string)
    returns (ok: bool, ghost lost: nat, ghost stopped: bool)
    requires Provides(provider, body) && AllWithin(pieces, |body|) && NoEmptyToken(pieces)
    modifies strm
    ensures ok && !stopped ==> |strm.written| + lost == |old(strm.written)| + Length(pieces)
    ensures ok && !stopped && lost == 0 ==> strm.written == old(strm.written) + Text(pieces, body)
  {
    ghost var before := strm.written;
    lost, stopped := 0, false;
    assert pieces[..0] == [] && before + [] == before;
    for i := 0 to |pieces|
      invariant !stopped ==> SentSoFar(strm.written, before, pieces[..i], body, lost)
    {
      ghost var was, d := strm.written, PieceText(pieces[i], body);
      ghost var cut := 0;
      assert pieces[i] in pieces;
      match pieces[i] {
        case Token(text) =>
          cut := WriteToken(strm, text);
        case Content(offset, length) =>
          ghost var halted;
          ok, halted := WriteContent(strm, provider, offset, length, body);
          if !ok { return false, lost, stopped; }
          stopped := stopped || halted;
      }
      if !stopped {
        SendMore(strm.written, was, before, pieces, i, body, lost, cut);
      }
      lost := lost + cut;
    }
    assert pieces[..|pieces|] == pieces;
    return true, lost, stopped;
  }

  ghost predicate SentSoFar(written: string, before: string, pieces: seq<Piece>, body: string, lost: nat)
  {
    && |written| + lost == |before| + Length(pieces)
    && (lost == 0 ==> written == before + Text(pieces, body))
  }

  lemma {:induction false} SendMore(written: string, was: string, before: string, pieces: seq<Piece>, i: nat,
                                    body: string, lost: nat, cut: nat)
    requires i < |pieces| && SentSoFar(was, before, pieces[..i], body, lost)
    requires |written| + cut == |was| + PieceLength(pieces[i])
    requires cut == 0 ==> written == was + PieceText(pieces[i], body)
    ensures SentSoFar(written, before, pieces[..i + 1], body, lost + cut)
  {
    OneMore(pieces, i, body);
    Regroup(before, Text(pieces[..i], body), PieceText(pieces[i], body));
  }
}
